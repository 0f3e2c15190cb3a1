/** The few `std::string` operations the modelled code is written in: `find` and `compare`.
    `npos` is written -1. */
module Text {

  /** `t` occurs in `s` at index `k`. */
  predicate OccursAt(s: string, t: string, k: int) {
    0 <= k && k + |t| <= |s| && s[k..k + |t|] == t
  }

  /** `s.find(t, from)`: the least index at or after `from` where `t` occurs, or -1. */
  function Find(s: string, t: string, from: nat): (r: int)
    ensures r == -1 || (from <= r && OccursAt(s, t, r))
    ensures forall k :: from <= k && (r == -1 || k < r) ==> !OccursAt(s, t, k)
    decreases |s| + 1 - from
  {
    if from + |t| > |s| then -1
    else if OccursAt(s, t, from) then from
    else Find(s, t, from + 1)
  }

  /** An occurrence with none before it is what `find` returns. */
  lemma FindIs(s: string, t: string, from: nat, r: nat)
    requires from <= r && OccursAt(s, t, r)
    requires forall k :: from <= k < r ==> !OccursAt(s, t, k)
    ensures Find(s, t, from) == r
  {
    assert Find(s, t, from) != -1;
  }

  /** The number of characters of `s` equal to `c`. */
  function CountChar(s: string, c: char): nat {
    if s == "" then 0 else (if s[0] == c then 1 else 0) + CountChar(s[1..], c)
  }

  lemma {:induction false} CountCharConcat(a: string, b: string, c: char)
    ensures CountChar(a + b, c) == CountChar(a, c) + CountChar(b, c)
  {
    if a == "" {
      assert a + b == b;
    } else {
      assert (a + b)[1..] == a[1..] + b;
      CountCharConcat(a[1..], b, c);
    }
  }

  lemma {:induction false} CountCharAbsent(s: string, c: char)
    requires c !in s
    ensures CountChar(s, c) == 0
  {
    if s != "" {
      CountCharAbsent(s[1..], c);
    }
  }

  /** `std::getline` until the end: the pieces between newlines, without an empty last piece. */
  function Lines(s: string): seq<string>
    decreases |s|
  {
    if s == "" then []
    else
      var nl := Find(s, "\n", 0);
      if nl < 0 then [s] else [s[..nl]] + Lines(s[nl + 1..])
  }

  lemma FindChar(s: string, c: char, from: nat, r: nat)
    requires from <= r < |s| && s[r] == c
    requires forall k :: from <= k < r ==> s[k] != c
    ensures Find(s, [c], from) == r
  {
    assert s[r..r + 1] == [c];
    forall k | from <= k < r ensures !OccursAt(s, [c], k) {
      assert s[k..k + 1] == [s[k]];
    }
    FindIs(s, [c], from, r);
  }

  lemma LinesFirst(line: string, rest: string)
    requires '\n' !in line
    ensures Lines(line + "\n" + rest) == [line] + Lines(rest)
  {
    var s := line + "\n" + rest;
    FindChar(s, '\n', 0, |line|);
    assert s[..|line|] == line && s[|line| + 1..] == rest;
  }

  /** What an occurrence is, character by character. */
  lemma OccursChars(s: string, t: string, k: int)
    requires OccursAt(s, t, k)
    ensures forall i :: 0 <= i < |t| ==> s[k + i] == t[i]
  {
    forall i | 0 <= i < |t| ensures s[k + i] == t[i] {
      assert s[k..k + |t|][i] == s[k + i];
    }
  }

  lemma NotFound(s: string, t: string, from: nat)
    requires forall k :: from <= k ==> !OccursAt(s, t, k)
    ensures Find(s, t, from) == -1
  {
  }

  lemma Mismatch(s: string, t: string, k: nat, i: nat)
    requires i < |t| && k + i < |s| && s[k + i] != t[i]
    ensures !OccursAt(s, t, k)
  {
    if OccursAt(s, t, k) {
      OccursChars(s, t, k);
    }
  }

  /** The complete lines of a text, and what follows the last newline. */
  ghost function CompleteLines(text: string): (r: (seq<string>, string))
    decreases |text|
  {
    var nl := Find(text, "\n", 0);
    if nl < 0 then ([], text)
    else
      var rest := CompleteLines(text[nl + 1..]);
      ([text[..nl]] + rest.0, rest.1)
  }

  /** Pieces put together. */
  ghost function Joined(pieces: seq<string>): string {
    if pieces == [] then "" else pieces[0] + Joined(pieces[1..])
  }

  lemma Associates(a: string, b: string, c: string, d: string)
    ensures a + (b + (c + d)) == a + b + c + d == a + (b + c + d)
  {
  }
}
