/** The receiver of a streamed response (src/ollama/ollama.cpp): bytes arrive in arbitrary pieces, and each complete
    line is a JSON object that carries the next token. */
module ResponseStream {
  import Json
  import JsonObject
  import JsonString
  import opened Text
  import opened Wrappers

  /** `token` is what is extracted from a line, `isDone` says whether the line carries the final counts, and `accept`
      is the callback: its answer may depend on everything delivered so far. */
  datatype Handler = Handler(token: string -> string, isDone: string -> bool, accept: seq<string> -> bool)

  datatype State = State(buffer: string, delivered: seq<string>, response: string, lastDone: string, aborted: bool)

  const INIT := State("", [], "", "", false)

  // ----- the receiver -----

  /** One complete line. */
  function OneLine(st: State, line: string, h: Handler): State {
    if line == "" then st
    else
      var token := h.token(line);
      var st' := if token == "" then st else st.(delivered := st.delivered + [token], response := st.response + token);
      if token != "" && !h.accept(st'.delivered) then st'.(aborted := true)
      else if h.isDone(line) then st'.(lastDone := line)
      else st'
  }

  /** The loop over the complete lines of the buffer. */
  function Drain(st: State, h: Handler): State
    decreases |st.buffer|
  {
    var nl := Find(st.buffer, "\n", 0);
    if nl < 0 || st.aborted then st
    else Drain(OneLine(st.(buffer := st.buffer[nl + 1..]), st.buffer[..nl], h).(buffer := st.buffer[nl + 1..]), h)
  }

  class Receiver {
    const h: Handler
    var buffer: string
    var delivered: seq<string>
    var response: string
    var lastDone: string
    var aborted: bool

    function Abstract(): State
      reads this
    {
      State(buffer, delivered, response, lastDone, aborted)
    }

    constructor (h: Handler)
      ensures Abstract() == INIT && this.h == h
    {
      this.h := h;
      buffer, delivered, response, lastDone, aborted := "", [], "", "", false;
    }

    /** A piece of the response. The answer says whether the transfer goes on. */
    method Receive(data: string) returns (goOn: bool)
      requires !aborted
      modifies this
      ensures Abstract() == Drain(old(Abstract()).(buffer := old(buffer) + data), h) && goOn == !aborted
    {
      buffer := buffer + data;
      while true
        invariant !aborted
        invariant Drain(Abstract(), h) == Drain(old(Abstract()).(buffer := old(buffer) + data), h)
        decreases |buffer|
      {
        var nl := Find(buffer, "\n", 0);
        if nl < 0 { break; }
        var line := buffer[..nl];
        buffer := buffer[nl + 1..];
        if line == "" { continue; }
        var token := h.token(line);
        if token != "" {
          delivered := delivered + [token];
          response := response + token;
          if !h.accept(delivered) {
            aborted := true;
            return false;
          }
        }
        if h.isDone(line) {
          lastDone := line;
        }
      }
      return true;
    }
  }

  // ----- chunks do not matter -----

  /** The transfer: it stops when the receiver refuses to go on. */
  ghost function Transfer(st: State, chunks: seq<string>, h: Handler): State
    decreases |chunks|
  {
    if chunks == [] || st.aborted then st
    else Transfer(Drain(st.(buffer := st.buffer + chunks[0]), h), chunks[1..], h)
  }

  lemma FindInPrefix(a: string, b: string)
    ensures Find(a, "\n", 0) >= 0 ==> Find(a + b, "\n", 0) == Find(a, "\n", 0)
  {
    var nl := Find(a, "\n", 0);
    if nl >= 0 {
      assert (a + b)[nl..nl + 1] == a[nl..nl + 1];
      forall k | 0 <= k < nl ensures !OccursAt(a + b, "\n", k) {
        assert !OccursAt(a, "\n", k);
        assert (a + b)[k..k + 1] == a[k..k + 1];
      }
      FindIs(a + b, "\n", 0, nl);
    }
  }

  /** Draining before more data arrives changes nothing, but for the data that an aborted transfer never reads. */
  lemma {:induction false} DrainEarly(st: State, more: string, h: Handler)
    requires !st.aborted
    ensures var d := Drain(st, h);
            var all := Drain(st.(buffer := st.buffer + more), h);
            if d.aborted then all == d.(buffer := d.buffer + more) else all == Drain(d.(buffer := d.buffer + more), h)
    decreases |st.buffer|
  {
    hide OneLine, Find;
    FindInPrefix(st.buffer, more);
    var nl := Find(st.buffer, "\n", 0);
    if nl >= 0 {
      var rest, line := st.buffer[nl + 1..], st.buffer[..nl];
      assert (st.buffer + more)[nl + 1..] == rest + more && (st.buffer + more)[..nl] == line;
      OneLineIgnoresBuffer(st, line, rest, rest + more, h);
      var next := OneLine(st.(buffer := rest), line, h).(buffer := rest);
      if next.aborted {
        assert Drain(next, h) == next;
        assert Drain(next.(buffer := rest + more), h) == next.(buffer := rest + more);
      } else {
        DrainEarly(next, more, h);
      }
    }
  }

  lemma OneLineIgnoresBuffer(st: State, line: string, a: string, b: string, h: Handler)
    ensures OneLine(st.(buffer := a), line, h).(buffer := b) == OneLine(st.(buffer := b), line, h)
  {
  }

  lemma {:induction false} DrainTwice(st: State, h: Handler)
    ensures Drain(Drain(st, h), h) == Drain(st, h)
    decreases |st.buffer|
  {
    hide OneLine, Find;
    var nl := Find(st.buffer, "\n", 0);
    if nl >= 0 && !st.aborted {
      DrainTwice(OneLine(st.(buffer := st.buffer[nl + 1..]), st.buffer[..nl], h).(buffer := st.buffer[nl + 1..]), h);
    }
  }

  /** Where the response is cut into pieces does not matter: the transfer does what draining the whole response at
      once does, except that an aborted transfer has not read the rest. */
  lemma {:induction false} ChunksDoNotMatter(st: State, chunks: seq<string>, h: Handler)
    requires !st.aborted && Drain(st, h) == st
    ensures var t := Transfer(st, chunks, h);
            var all := Drain(st.(buffer := st.buffer + Joined(chunks)), h);
            t.aborted == all.aborted && (if t.aborted then t.(buffer := all.buffer) == all else t == all)
    decreases |chunks|
  {
    hide Drain;
    if chunks == [] {
      assert st.buffer + "" == st.buffer;
    } else {
      var first := st.(buffer := st.buffer + chunks[0]);
      var d := Drain(first, h);
      assert st.buffer + Joined(chunks) == st.buffer + chunks[0] + Joined(chunks[1..]);
      DrainEarly(first, Joined(chunks[1..]), h);
      DrainTwice(first, h);
      if !d.aborted {
        ChunksDoNotMatter(d, chunks[1..], h);
      }
    }
  }

  // ----- what is delivered -----

  /** The tokens of a list of lines. */
  ghost function Tokens(lines: seq<string>, h: Handler): seq<string> {
    if lines == [] then []
    else (if lines[0] == "" || h.token(lines[0]) == "" then [] else [h.token(lines[0])]) + Tokens(lines[1..], h)
  }

  ghost function Concat(tokens: seq<string>): string {
    if tokens == [] then "" else Concat(tokens[..|tokens| - 1]) + tokens[|tokens| - 1]
  }

  /** The callback took every one of the first `n` tokens. */
  ghost predicate AllTaken(tokens: seq<string>, from: nat, n: nat, h: Handler) {
    n <= |tokens| && forall k :: from < k <= n ==> h.accept(tokens[..k])
  }

  /** What draining has done, against the tokens it should have delivered. */
  ghost predicate Delivers(from: nat, d: State, tokens: seq<string>, rest: string, h: Handler) {
    && from <= |d.delivered| && d.delivered <= tokens && d.response == Concat(d.delivered)
    && (!d.aborted ==> d.delivered == tokens && d.buffer == rest && AllTaken(tokens, from, |tokens|, h))
    && (d.aborted ==> |d.delivered| > from && !h.accept(d.delivered) && AllTaken(tokens, from, |d.delivered| - 1, h))
  }

  lemma DrainStep(st: State, nl: nat, h: Handler)
    requires !st.aborted && Find(st.buffer, "\n", 0) == nl
    ensures var (line, rest) := (st.buffer[..nl], st.buffer[nl + 1..]);
            && Drain(st, h) == Drain(OneLine(st.(buffer := rest), line, h).(buffer := rest), h)
            && CompleteLines(st.buffer) == ([line] + CompleteLines(rest).0, CompleteLines(rest).1)
            && Tokens(CompleteLines(st.buffer).0, h) == Tokens([line], h) + Tokens(CompleteLines(rest).0, h)
  {
    hide OneLine;
    var rest := CompleteLines(st.buffer[nl + 1..]).0;
    assert ([st.buffer[..nl]] + rest)[1..] == rest;
    assert Tokens([st.buffer[..nl]][1..], h) == [];
  }

  lemma AllTakenLonger(tokens: seq<string>, from: nat, n: nat, h: Handler)
    requires from < |tokens| && AllTaken(tokens, from + 1, n, h) && h.accept(tokens[..from + 1])
    ensures AllTaken(tokens, from, n, h)
  {
    forall k | from < k <= n ensures h.accept(tokens[..k]) {
    }
  }

  /** Draining a buffer delivers the tokens of its complete lines, in order, up to and including the first one that the
      callback refuses. What is delivered is what is accumulated. When none is refused, the incomplete line stays. */
  lemma {:induction false} DrainDelivers(st: State, h: Handler)
    requires !st.aborted && st.response == Concat(st.delivered)
    ensures var (lines, rest) := CompleteLines(st.buffer);
            Delivers(|st.delivered|, Drain(st, h), st.delivered + Tokens(lines, h), rest, h)
            && st.delivered <= Drain(st, h).delivered
    decreases |st.buffer|
  {
    hide *;
    var nl := Find(st.buffer, "\n", 0);
    if nl < 0 {
      DrainNothing(st, h);
    } else {
      assert OccursAt(st.buffer, "\n", nl);
      NewlineFits(st.buffer, nl);
      var line, rest := st.buffer[..nl], st.buffer[nl + 1..];
      var next := OneLine(st.(buffer := rest), line, h).(buffer := rest);
      var here, later := Tokens([line], h), Tokens(CompleteLines(rest).0, h);
      DrainStep(st, nl, h);
      LineDelivers(st, line, rest, h);
      assert st.delivered + (here + later) == next.delivered + later;
      if next.aborted {
        StopHere(st, next, here, later, h);
      } else {
        DrainDelivers(next, h);
        GoOn(st, next, Drain(next, h), here, later, CompleteLines(rest).1, h);
      }
    }
  }

  lemma NewlineFits(s: string, nl: int)
    requires OccursAt(s, "\n", nl)
    ensures 0 <= nl < |s|
  {
  }

  lemma DrainNothing(st: State, h: Handler)
    requires !st.aborted && Find(st.buffer, "\n", 0) < 0 && st.response == Concat(st.delivered)
    ensures Delivers(|st.delivered|, Drain(st, h), st.delivered + Tokens(CompleteLines(st.buffer).0, h),
                     CompleteLines(st.buffer).1, h)
    ensures Drain(st, h) == st
  {
    assert st.delivered + [] == st.delivered;
  }

  lemma StopHere(st: State, next: State, here: seq<string>, later: seq<string>, h: Handler)
    requires |here| == 1 && next.delivered == st.delivered + here && next.response == Concat(next.delivered)
    requires next.aborted && !h.accept(next.delivered)
    ensures Drain(next, h) == next
    ensures forall rest :: Delivers(|st.delivered|, next, next.delivered + later, rest, h)
  {
  }

  lemma GoOn(st: State, next: State, d: State, here: seq<string>, later: seq<string>, rest: string, h: Handler)
    requires |here| <= 1 && next.delivered == st.delivered + here && (here != [] ==> h.accept(next.delivered))
    requires Delivers(|next.delivered|, d, next.delivered + later, rest, h) && next.delivered <= d.delivered
    ensures Delivers(|st.delivered|, d, next.delivered + later, rest, h) && st.delivered <= d.delivered
  {
    hide Concat;
    if here != [] {
      var tokens, from := next.delivered + later, |st.delivered|;
      assert tokens[..from + 1] == next.delivered;
      AllTakenLonger(tokens, from, if d.aborted then |d.delivered| - 1 else |tokens|, h);
    }
  }

  lemma LineDelivers(st: State, line: string, rest: string, h: Handler)
    requires !st.aborted && st.response == Concat(st.delivered)
    ensures var next := OneLine(st.(buffer := rest), line, h).(buffer := rest);
            var here := Tokens([line], h);
            && |here| <= 1
            && next.delivered == st.delivered + here && next.response == Concat(next.delivered) && next.buffer == rest
            && (next.aborted <==> here != [] && !h.accept(next.delivered))
  {
    hide Concat;
    assert Tokens([line][1..], h) == [];
    if line != "" && h.token(line) != "" {
      ConcatSnoc(st.delivered, h.token(line));
    } else {
      assert st.delivered + [] == st.delivered;
    }
  }

  lemma ConcatSnoc(tokens: seq<string>, token: string)
    ensures Concat(tokens + [token]) == Concat(tokens) + token
  {
    assert (tokens + [token])[..|tokens|] == tokens;
  }

  /** A whole transfer, in any pieces: without a refusal exactly the tokens of the complete lines are delivered and
      accumulated and the rest stays in the buffer; otherwise exactly the tokens up to the refused one. */
  lemma TransferDelivers(chunks: seq<string>, h: Handler)
    ensures var t := Transfer(INIT, chunks, h);
            var (lines, rest) := CompleteLines(Joined(chunks));
            var tokens := Tokens(lines, h);
            && t.delivered <= tokens && t.response == Concat(t.delivered)
            && (!t.aborted ==> t.delivered == tokens && t.buffer == rest && AllTaken(tokens, 0, |tokens|, h))
            && (t.aborted ==> |t.delivered| > 0 && !h.accept(t.delivered) && AllTaken(tokens, 0, |t.delivered| - 1, h))
  {
    DrainOfNothing(h);
    hide Drain, Transfer, CompleteLines, Tokens, AllTaken, Concat;
    ChunksDoNotMatter(INIT, chunks, h);
    assert "" + Joined(chunks) == Joined(chunks);
    EmptyConcat();
    DrainDelivers(INIT.(buffer := Joined(chunks)), h);
    var tokens := Tokens(CompleteLines(Joined(chunks)).0, h);
    assert [] + tokens == tokens;
  }

  // ----- the final counts -----

  /** The line carries the counts. */
  ghost predicate Counts(line: string, h: Handler) {
    line != "" && h.isDone(line)
  }

  /** The last of the first `n` lines that carries counts, or `before` when none does. */
  ghost predicate IsLast(lines: seq<string>, n: nat, before: string, got: string, h: Handler) {
    && n <= |lines|
    && if forall k :: 0 <= k < n ==> !Counts(lines[k], h) then got == before
       else exists k :: 0 <= k < n && Counts(lines[k], h) && lines[k] == got
                        && forall j :: k < j < n ==> !Counts(lines[j], h)
  }

  lemma LastLater(line: string, lines: seq<string>, n: nat, before: string, middle: string, got: string, h: Handler)
    requires middle == (if Counts(line, h) then line else before) && IsLast(lines, n, middle, got, h)
    ensures IsLast([line] + lines, n + 1, before, got, h)
  {
    var all := [line] + lines;
    assert all[0] == line && forall k :: 0 < k <= n ==> all[k] == lines[k - 1];
    if k :| 0 <= k < n && Counts(lines[k], h) && lines[k] == got && forall j :: k < j < n ==> !Counts(lines[j], h) {
      assert all[k + 1] == got;
    } else if Counts(line, h) {
      assert all[0] == got;
    }
  }

  /** Draining reads the first `n` lines; it stops before the line whose token the callback refuses, and keeps the last
      line with counts that it has read. */
  lemma {:induction false} DrainCounts(st: State, h: Handler) returns (n: nat)
    requires !st.aborted && st.response == Concat(st.delivered)
    ensures var (lines, d) := (CompleteLines(st.buffer).0, Drain(st, h));
            && IsLast(lines, n, st.lastDone, d.lastDone, h)
            && (!d.aborted ==> n == |lines|)
            && (d.aborted ==> n < |lines| && lines[n] != "" && h.token(lines[n]) != ""
                              && d.delivered == st.delivered + Tokens(lines[..n + 1], h))
    decreases |st.buffer|
  {
    hide *;
    var nl := Find(st.buffer, "\n", 0);
    if nl < 0 {
      n := 0;
      NoLines(st, h);
    } else {
      assert OccursAt(st.buffer, "\n", nl);
      NewlineFits(st.buffer, nl);
      var line, rest := st.buffer[..nl], st.buffer[nl + 1..];
      var next := OneLine(st.(buffer := rest), line, h).(buffer := rest);
      DrainStep(st, nl, h);
      LineDelivers(st, line, rest, h);
      if next.aborted {
        n := 0;
        Refused(st, line, rest, CompleteLines(rest).0, h);
      } else {
        var m := DrainCounts(next, h);
        n := m + 1;
        var lines, d := CompleteLines(rest).0, Drain(next, h);
        LineCounted(st, line, rest, h);
        LastLater(line, lines, m, st.lastDone, next.lastDone, d.lastDone, h);
        if d.aborted {
          TokensCons(line, lines, m + 1, h);
          assert st.delivered + (Tokens([line], h) + Tokens(lines[..m + 1], h)) == d.delivered;
        }
      }
    }
  }

  lemma NoLines(st: State, h: Handler)
    requires !st.aborted && Find(st.buffer, "\n", 0) < 0
    ensures Drain(st, h) == st && CompleteLines(st.buffer).0 == [] && IsLast([], 0, st.lastDone, st.lastDone, h)
  {
  }

  lemma Refused(st: State, line: string, rest: string, lines: seq<string>, h: Handler)
    requires var next := OneLine(st.(buffer := rest), line, h).(buffer := rest); !st.aborted && next.aborted
    ensures var next := OneLine(st.(buffer := rest), line, h).(buffer := rest);
            && Drain(next, h) == next && IsLast([line] + lines, 0, st.lastDone, next.lastDone, h)
            && ([line] + lines)[0] == line && line != "" && h.token(line) != ""
            && next.delivered == st.delivered + Tokens(([line] + lines)[..0 + 1], h)
  {
    assert ([line] + lines)[..0 + 1] == [line];
    assert Tokens([line][1..], h) == [];
  }

  lemma LineCounted(st: State, line: string, rest: string, h: Handler)
    requires var next := OneLine(st.(buffer := rest), line, h).(buffer := rest); !st.aborted && !next.aborted
    ensures OneLine(st.(buffer := rest), line, h).lastDone == (if Counts(line, h) then line else st.lastDone)
  {
  }

  lemma TokensCons(line: string, lines: seq<string>, m: nat, h: Handler)
    requires m <= |lines|
    ensures Tokens(([line] + lines)[..m + 1], h) == Tokens([line], h) + Tokens(lines[..m], h)
    ensures m > 0 ==> ([line] + lines)[m] == lines[m - 1]
  {
    assert ([line] + lines)[..m + 1] == [line] + lines[..m];
    assert ([line] + lines[..m])[1..] == lines[..m];
    assert Tokens([line][1..], h) == [];
  }

  /** A whole transfer, in any pieces: the counts kept are those of the last line that carries some, up to the line
      whose token is refused. */
  lemma TransferCounts(chunks: seq<string>, h: Handler) returns (n: nat)
    ensures var (lines, t) := (CompleteLines(Joined(chunks)).0, Transfer(INIT, chunks, h));
            && IsLast(lines, n, "", t.lastDone, h)
            && (!t.aborted ==> n == |lines|)
            && (t.aborted ==> n < |lines| && lines[n] != "" && h.token(lines[n]) != ""
                              && t.delivered == Tokens(lines[..n + 1], h))
  {
    DrainOfNothing(h);
    hide Drain, Transfer, CompleteLines, Tokens, Concat, IsLast;
    ChunksDoNotMatter(INIT, chunks, h);
    assert "" + Joined(chunks) == Joined(chunks);
    EmptyConcat();
    n := DrainCounts(INIT.(buffer := Joined(chunks)), h);
    assert forall tokens: seq<string> :: [] + tokens == tokens;
  }

  lemma EmptyConcat()
    ensures Concat([]) == ""
  {
  }

  lemma DrainOfNothing(h: Handler)
    ensures Drain(INIT, h) == INIT
  {
  }

  // ----- the token of a line -----

  /** What the source extracts from a line. */
  function TokenOf(line: string): Option<string> {
    Json.ExtractString(JsonObject.ExtractObject(line, "message"), "content")
  }

  /** On a line whose `message` is a printed object, the token is what the string in its first `content` field means,
      whatever braces, quotes, backslashes and escapes it holds. */
  lemma TokenOfPrintedLine(line: string, before: string, blanks: string, message: JsonObject.Body, after: string,
                           front: string, gap: string, ps: seq<JsonString.Piece>, tail: string)
    requires JsonObject.Printable(message) && JsonString.AllLegal(ps) && IsBlanks(blanks) && IsBlanks(gap)
    requires var printed := "{" + (JsonObject.Print(message) + "}");
             && line == before + "\"message\":" + blanks + (printed + after)
             && printed == front + "\"content\":" + gap + ("\"" + (JsonString.AllWritten(ps) + ("\"" + tail)))
             && JsonString.FirstKey(printed, front, "content")
    requires JsonString.FirstKey(line, before, "message")
    ensures TokenOf(line) == Some(JsonString.AllMeant(ps))
  {
    hide Find, JsonObject.Print, JsonObject.Printable, JsonObject.ExtractObject, JsonString.AllWritten,
      JsonString.AllMeant, JsonString.AllLegal, Json.ExtractString, JsonString.FirstKey;
    JsonObject.ObjectRoundTrip(line, before, "message", blanks, message, after);
    JsonString.StringField(JsonObject.ExtractObject(line, "message"), front, "content", gap, ps, tail);
  }

  ghost predicate IsBlanks(s: string) {
    forall k :: 0 <= k < |s| ==> JsonString.IsBlank(s[k])
  }

  /** A line without the key `message` has no token. */
  lemma NoMessageNoToken(line: string)
    requires forall k :: !OccursAt(line, "\"message\":", k)
    ensures TokenOf(line) == Some("")
  {
    NotFound(line, "\"message\":", 0);
    assert Json.Needle("message") == "\"message\":";
    hide Find;
    JsonString.NoField("", "content");
  }
}
