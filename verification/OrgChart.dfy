/** The org chart renderer (src/tui/mermaid/orgchart.cpp) draws an indented list as a flowchart: each entry
    gets an edge from its parent, and the flowchart layout puts the entries into layers. */
module OrgChart {
  import FlowChains
  import opened FlowGraph
  import opened FlowText
  import opened Text
  import opened Walks
  import opened Wrappers

  datatype Entry = Entry(caption: string, depth: nat)

  function Depths(entries: seq<Entry>): (r: seq<nat>)
    ensures |r| == |entries|
    ensures forall i :: 0 <= i < |entries| ==> r[i] == entries[i].depth
  {
    seq(|entries|, i requires 0 <= i < |entries| => entries[i].depth)
  }

  // ----- node ids -----

  function Digit(d: nat): char
    requires d < 10
  {
    "0123456789"[d]
  }

  /** `std::to_string` of a non-negative number. */
  function Decimal(n: nat): (s: string)
    ensures s != "" && forall c :: c in s ==> '0' <= c <= '9'
  {
    if n < 10 then [Digit(n)] else Decimal(n / 10) + [Digit(n % 10)]
  }

  ghost function DigitValue(c: char): int {
    c as int - '0' as int
  }

  ghost function Value(s: string): int {
    if s == "" then 0 else 10 * Value(s[..|s| - 1]) + DigitValue(s[|s| - 1])
  }

  lemma {:induction false} DecimalValue(n: nat)
    ensures Decimal(n) != "" && Value(Decimal(n)) == n
  {
    if n >= 10 {
      DecimalValue(n / 10);
      assert Decimal(n)[..|Decimal(n)| - 1] == Decimal(n / 10);
    } else {
      assert Value([Digit(n)]) == 10 * Value("") + DigitValue(Digit(n)) by {
        assert [Digit(n)][..0] == "";
      }
    }
  }

  function Id(k: nat): string {
    "N" + Decimal(k)
  }

  lemma IdInjective(j: nat, k: nat)
    requires Id(j) == Id(k)
    ensures j == k
  {
    assert Id(j)[1..] == Decimal(j) && Id(k)[1..] == Decimal(k);
    DecimalValue(j);
    DecimalValue(k);
  }

  // ----- parents -----

  /** The nearest preceding entry one level up, or -1. */
  ghost predicate IsParent(depths: seq<nat>, i: nat, j: int) {
    && i < |depths| && -1 <= j < i
    && (j >= 0 ==> depths[j] == depths[i] as int - 1)
    && forall k :: j < k < i ==> depths[k] != depths[i] as int - 1
  }

  method FindParent(depths: seq<nat>, i: nat) returns (j: int)
    requires i < |depths|
    ensures IsParent(depths, i, j)
  {
    j := i - 1;
    while j >= 0
      invariant -1 <= j < i
      invariant forall k :: j < k < i ==> depths[k] != depths[i] as int - 1
    {
      if depths[j] == depths[i] as int - 1 { return; }
      j := j - 1;
    }
  }

  ghost predicate HasPair(pairs: seq<(nat, nat)>, k: nat) {
    exists m :: 0 <= m < |pairs| && pairs[m].1 == k
  }

  /** The edges (parent, entry) of the entries before `i`, in order of the entry. */
  ghost predicate IsEdgeList(depths: seq<nat>, i: nat, pairs: seq<(nat, nat)>) {
    && i <= |depths|
    && (forall m :: 0 <= m < |pairs| ==>
          pairs[m].1 < i && depths[pairs[m].1] > 0 && IsParent(depths, pairs[m].1, pairs[m].0))
    && (forall m, m' :: 0 <= m < m' < |pairs| ==> pairs[m].1 < pairs[m'].1)
    && (forall k :: 0 <= k < i && depths[k] > 0 && !IsParent(depths, k, -1) ==> HasPair(pairs, k))
  }

  lemma EdgeListStep(depths: seq<nat>, i: nat, pairs: seq<(nat, nat)>, j: int)
    requires IsEdgeList(depths, i, pairs) && i < |depths|
    requires depths[i] > 0 ==> IsParent(depths, i, j)
    ensures IsEdgeList(depths, i + 1, if depths[i] > 0 && j >= 0 then pairs + [(j, i)] else pairs)
  {
    hide IsParent, HasPair, IsEdgeList;
    var pairs' := if depths[i] > 0 && j >= 0 then pairs + [(j, i)] else pairs;
    forall k: nat | k < i + 1 && depths[k] > 0 && !IsParent(depths, k, -1)
      ensures HasPair(pairs', k)
    {
      PairStays(depths, i, pairs, j, k);
    }
    forall m: nat | m < |pairs'|
      ensures pairs'[m].1 < i + 1 && depths[pairs'[m].1] > 0 && IsParent(depths, pairs'[m].1, pairs'[m].0)
    {
      PairIsParent(depths, i, pairs, j, m);
    }
    assert forall m, m' :: 0 <= m < m' < |pairs'| ==> pairs'[m].1 < pairs'[m'].1 by {
      PairsInOrder(depths, i, pairs, j);
    }
    EdgeListIs(depths, i + 1, pairs');
  }

  lemma PairIsParent(depths: seq<nat>, i: nat, pairs: seq<(nat, nat)>, j: int, m: nat)
    requires IsEdgeList(depths, i, pairs) && i < |depths| && (depths[i] > 0 ==> IsParent(depths, i, j))
    requires m < |if depths[i] > 0 && j >= 0 then pairs + [(j, i)] else pairs|
    ensures var p := (if depths[i] > 0 && j >= 0 then pairs + [(j, i)] else pairs)[m];
            p.1 < i + 1 && depths[p.1] > 0 && IsParent(depths, p.1, p.0)
  {
    hide IsParent;
  }

  lemma PairsInOrder(depths: seq<nat>, i: nat, pairs: seq<(nat, nat)>, j: int)
    requires IsEdgeList(depths, i, pairs) && i < |depths|
    ensures var pairs' := if depths[i] > 0 && j >= 0 then pairs + [(j, i)] else pairs;
            forall m, m' :: 0 <= m < m' < |pairs'| ==> pairs'[m].1 < pairs'[m'].1
  {
    hide IsParent;
  }

  lemma EdgeListIs(depths: seq<nat>, i: nat, pairs: seq<(nat, nat)>)
    requires i <= |depths|
    requires forall m :: 0 <= m < |pairs| ==>
             pairs[m].1 < i && depths[pairs[m].1] > 0 && IsParent(depths, pairs[m].1, pairs[m].0)
    requires forall m, m' :: 0 <= m < m' < |pairs| ==> pairs[m].1 < pairs[m'].1
    requires forall k :: 0 <= k < i && depths[k] > 0 && !IsParent(depths, k, -1) ==> HasPair(pairs, k)
    ensures IsEdgeList(depths, i, pairs)
  {
    hide IsParent;
  }

  /** The edge into `k` is in the list, also after the next one is appended. */
  lemma PairStays(depths: seq<nat>, i: nat, pairs: seq<(nat, nat)>, j: int, k: nat)
    requires IsEdgeList(depths, i, pairs) && i < |depths| && (depths[i] > 0 ==> IsParent(depths, i, j))
    requires k <= i && depths[k] > 0 && !IsParent(depths, k, -1)
    ensures HasPair(if depths[i] > 0 && j >= 0 then pairs + [(j, i)] else pairs, k)
  {
    hide IsParent;
    var pairs' := if depths[i] > 0 && j >= 0 then pairs + [(j, i)] else pairs;
    if k == i {
      assert j >= 0 by { ParentIndex(depths, i, j); }
      assert pairs'[|pairs|].1 == k;
    } else {
      var m :| 0 <= m < |pairs| && pairs[m].1 == k;
      assert pairs'[m].1 == k;
    }
  }

  lemma ParentIndex(depths: seq<nat>, i: nat, j: int)
    requires IsParent(depths, i, j)
    ensures -1 <= j < i
  {
  }

  // ----- the flowchart text -----

  function Token(entries: seq<Entry>, k: nat): string
    requires k < |entries|
  {
    Id(k) + "[" + entries[k].caption + "]"
  }

  function EdgeLine(entries: seq<Entry>, j: nat, i: nat): string
    requires j < |entries| && i < |entries|
  {
    "    " + (Token(entries, j) + " --> " + Token(entries, i))
  }

  ghost predicate EdgesFit(entries: seq<Entry>, pairs: seq<(nat, nat)>) {
    forall m :: 0 <= m < |pairs| ==> pairs[m].0 < |entries| && pairs[m].1 < |entries|
  }

  ghost function EdgeText(entries: seq<Entry>, pairs: seq<(nat, nat)>): string
    requires EdgesFit(entries, pairs)
  {
    if pairs == [] then "" else EdgeLine(entries, pairs[0].0, pairs[0].1) + "\n" + EdgeText(entries, pairs[1..])
  }

  lemma {:induction false} EdgeTextSnoc(entries: seq<Entry>, pairs: seq<(nat, nat)>, j: nat, i: nat)
    requires EdgesFit(entries, pairs)
    requires j < |entries| && i < |entries|
    ensures EdgeText(entries, pairs + [(j, i)]) == EdgeText(entries, pairs) + EdgeLine(entries, j, i) + "\n"
  {
    hide EdgeLine;
    if pairs == [] {
      assert [(j, i)][1..] == [];
    } else {
      assert (pairs + [(j, i)])[1..] == pairs[1..] + [(j, i)];
      EdgeTextSnoc(entries, pairs[1..], j, i);
    }
  }

  lemma NoEdges(entries: seq<Entry>)
    ensures IsEdgeList(Depths(entries), 0, []) && EdgeText(entries, []) == ""
  {
  }

  /** The conversion loop. */
  method FlowchartText(entries: seq<Entry>) returns (text: string, ghost pairs: seq<(nat, nat)>)
    ensures IsEdgeList(Depths(entries), |entries|, pairs) && text == "graph TD\n" + EdgeText(entries, pairs)
  {
    hide EdgeLine, EdgeText, IsEdgeList, IsParent;
    NoEdges(entries);
    text := "graph TD\n";
    pairs := [];
    var depths := Depths(entries);
    for i := 0 to |entries|
      invariant IsEdgeList(depths, i, pairs) && EdgesFit(entries, pairs)
      invariant text == "graph TD\n" + EdgeText(entries, pairs)
    {
      var j := -1;
      if depths[i] != 0 {
        j := FindParent(depths, i);
        if j >= 0 {
          EdgeTextSnoc(entries, pairs, j, i);
          Associates("graph TD\n", EdgeText(entries, pairs), EdgeLine(entries, j, i), "\n");
          text := text + EdgeLine(entries, j, i) + "\n";
        }
      }
      EdgeListStep(depths, i, pairs, j);
      pairs := if depths[i] > 0 && j >= 0 then pairs + [(j, i)] else pairs;
    }
  }

  // ----- reading it back -----

  /** A caption the flowchart syntax leaves alone. */
  ghost predicate Plain(caption: string) {
    ';' !in caption && '\n' !in caption && forall k :: !OccursAt(caption, ARROW, k)
  }

  lemma ArrowChars(s: string, k: int)
    requires OccursAt(s, ARROW, k)
    ensures 0 <= k && k + 3 <= |s| && s[k] == '-' && s[k + 1] == '-' && s[k + 2] == '>'
  {
    OccursChars(s, ARROW, k);
    assert s[k + 0] == '-' && s[k + 1] == '-' && s[k + 2] == '>';
  }

  /** An arrow that starts in `pre + caption + "]"` lies in the caption. */
  lemma ArrowInCaption(s: string, pre: string, caption: string, k: int)
    requires |pre| + |caption| < |s| && s[..|pre|] == pre && s[|pre|..|pre| + |caption|] == caption
    requires s[|pre| + |caption|] == ']' && '-' !in pre
    requires k <= |pre| + |caption| && OccursAt(s, ARROW, k)
    ensures OccursAt(caption, ARROW, k - |pre|)
  {
    var end := |pre| + |caption|;
    ArrowChars(s, k);
    hide OccursAt;
    forall i | 0 <= i < |pre| ensures s[i] != '-' {
      assert s[i] == s[..|pre|][i];
    }
    assert |pre| <= k && k + 2 < end;
    SliceOccurs(s, |pre|, end, ARROW, k);
  }

  lemma SliceOccurs(s: string, i: nat, j: nat, t: string, k: nat)
    requires i <= k && k + |t| <= j <= |s| && OccursAt(s, t, k)
    ensures OccursAt(s[i..j], t, k - i)
  {
    var inner, outer := s[i..j][k - i..k - i + |t|], s[k..k + |t|];
    assert |inner| == |outer|;
    forall m | 0 <= m < |inner| ensures inner[m] == outer[m] {
    }
  }

  lemma NoArrowIn(s: string, pre: string, caption: string)
    requires |pre| + |caption| < |s| && s[..|pre|] == pre && s[|pre|..|pre| + |caption|] == caption
    requires s[|pre| + |caption|] == ']' && '-' !in pre && Plain(caption)
    ensures forall k :: k <= |pre| + |caption| ==> !OccursAt(s, ARROW, k)
  {
    forall k | k <= |pre| + |caption| ensures !OccursAt(s, ARROW, k) {
      if OccursAt(s, ARROW, k) {
        ArrowInCaption(s, pre, caption, k);
      }
    }
  }

  /** The token of an entry is one for the parser. */
  lemma TokenReads(entries: seq<Entry>, k: nat)
    requires k < |entries| && Plain(entries[k].caption)
    ensures FlowChains.IsToken(Token(entries, k))
  {
    hide Plain, OccursAt, FlowChains.Trimmed;
    var pre, caption := Id(k) + "[", entries[k].caption;
    var t := Token(entries, k);
    TokenParts(k, caption);
    NoArrowIn(t, pre, caption);
    forall i ensures !OccursAt(t, "-->", i) {
      if OccursAt(t, ARROW, i) {
        ArrowChars(t, i);
      }
    }
  }

  lemma TokenParts(k: nat, caption: string)
    ensures var pre, t := Id(k) + "[", Id(k) + "[" + caption + "]";
            && |t| == |pre| + |caption| + 1 && t[..|pre|] == pre && t[|pre|..|pre| + |caption|] == caption
            && t[|pre| + |caption|] == ']' && '-' !in pre && t[0] == 'N' && FlowChains.Trimmed(t)
  {
    hide Decimal;
    assert forall c :: c in Decimal(k) ==> c != '-';
  }

  /** The two tokens of an edge line are read back. */
  lemma EdgeLineChain(entries: seq<Entry>, j: nat, i: nat)
    requires j < |entries| && i < |entries| && Plain(entries[j].caption) && Plain(entries[i].caption)
    ensures var line := Trim(EdgeLine(entries, j, i));
            line != "" && Find(line, ARROW, 0) >= 0 && Chain(line) == [Token(entries, j), Token(entries, i)]
  {
    hide *;
    var a, b, link := Token(entries, j), Token(entries, i), FlowChains.Link(" ", " ", None, "");
    TokenReads(entries, j);
    TokenReads(entries, i);
    EdgeLineIs(entries, j, i);
    FlowChains.ChainLineRead("    ", [a, b], [link], "");
  }

  lemma EdgeLineIs(entries: seq<Entry>, j: nat, i: nat)
    requires j < |entries| && i < |entries|
    requires FlowChains.IsToken(Token(entries, j)) && FlowChains.IsToken(Token(entries, i))
    ensures var a, b, link := Token(entries, j), Token(entries, i), FlowChains.Link(" ", " ", None, "");
            && FlowChains.Blank("    ") && FlowChains.Blank("") && FlowChains.LegalChain([a, b], [link])
            && FlowChains.ChainLine("    ", [a, b], [link], "") == EdgeLine(entries, j, i)
  {
    hide Token, FlowChains.IsToken;
    var a, b, link := Token(entries, j), Token(entries, i), FlowChains.Link(" ", " ", None, "");
    assert [a, b][1..] == [b] && [link][1..] == [];
    assert FlowChains.ChainText([b], []) == b;
    assert FlowChains.ChainText([a, b], [link]) == a + FlowChains.LinkText(link) + b;
    assert FlowChains.LinkText(link) == " --> ";
  }

  ghost predicate AllPlain(entries: seq<Entry>) {
    forall i :: 0 <= i < |entries| ==> Plain(entries[i].caption)
  }

  /** The graph after reading the edge lines of the pairs. */
  ghost function Fold(flow: Flow, entries: seq<Entry>, pairs: seq<(nat, nat)>): Flow
    requires EdgesFit(entries, pairs)
    decreases pairs
  {
    if pairs == [] then flow
    else Fold(AddChain(flow, [Token(entries, pairs[0].0), Token(entries, pairs[0].1)]), entries, pairs[1..])
  }

  lemma PlainLine(entries: seq<Entry>, j: nat, i: nat)
    requires AllPlain(entries) && j < |entries| && i < |entries|
    ensures ';' !in EdgeLine(entries, j, i) && '\n' !in EdgeLine(entries, j, i)
  {
    assert Plain(entries[j].caption) && Plain(entries[i].caption);
  }

  lemma {:induction false} NoSemicolon(entries: seq<Entry>, pairs: seq<(nat, nat)>)
    requires AllPlain(entries) && EdgesFit(entries, pairs)
    ensures ';' !in EdgeText(entries, pairs)
  {
    if pairs != [] {
      PlainLine(entries, pairs[0].0, pairs[0].1);
      NoSemicolon(entries, pairs[1..]);
    }
  }

  lemma {:induction false} ReadEdgeText(flow: Flow, entries: seq<Entry>, pairs: seq<(nat, nat)>)
    requires AllPlain(entries) && EdgesFit(entries, pairs)
    ensures ReadLines(Lines(EdgeText(entries, pairs)), true, flow) == Fold(flow, entries, pairs)
    decreases pairs
  {
    hide EdgeLine, AddChain, Chain, Find, Trim, Lines;
    if pairs == [] {
      LinesOfEmpty();
    } else {
      var j, i := pairs[0].0, pairs[0].1;
      PlainLine(entries, j, i);
      EdgeLineChain(entries, j, i) by { assert Plain(entries[j].caption) && Plain(entries[i].caption); }
      LinesFirst(EdgeLine(entries, j, i), EdgeText(entries, pairs[1..]));
      var lines := Lines(EdgeText(entries, pairs));
      assert lines[0] == EdgeLine(entries, j, i) && lines[1..] == Lines(EdgeText(entries, pairs[1..]));
      ReadEdgeText(AddChain(flow, [Token(entries, j), Token(entries, i)]), entries, pairs[1..]);
    }
  }

  lemma LinesOfEmpty()
    ensures Lines("") == []
  {
  }

  /** Parsing the flowchart text gives the graph of the pairs. */
  lemma ParsedFlowchart(entries: seq<Entry>, pairs: seq<(nat, nat)>)
    requires AllPlain(entries) && EdgesFit(entries, pairs)
    ensures ReadLines(Lines(Normalize("graph TD\n" + EdgeText(entries, pairs))), false, Flow([], []))
            == Fold(Flow([], []), entries, pairs)
  {
    hide EdgeText, Fold;
    var text := "graph TD\n" + EdgeText(entries, pairs);
    NoSemicolon(entries, pairs);
    assert Normalize(text) == text;
    assert "graph TD\n" == "graph TD" + "\n";
    LinesFirst("graph TD", EdgeText(entries, pairs));
    HeaderLine();
    hide Trim, IsHeader, Lines;
    var lines := Lines(text);
    assert lines[0] == "graph TD" && lines[1..] == Lines(EdgeText(entries, pairs));
    ReadEdgeText(Flow([], []), entries, pairs);
  }

  lemma HeaderLine()
    ensures Trim("graph TD") == "graph TD" && IsHeader("graph TD")
  {
    assert "" + "graph TD" + "" == "graph TD" && "graph TD"[0..5] == "graph";
    FlowChains.TrimIs("", "graph TD", "");
  }

  // ----- the lowered graph -----

  /** `org[k]` is the entry that graph node `k` stands for. */
  ghost predicate Names(nodes: seq<Node>, org: seq<nat>) {
    |org| == |nodes| && forall k :: 0 <= k < |nodes| ==> nodes[k].id == Id(org[k]) && nodes[k].layer == 0
  }

  ghost predicate Drawn(edges: seq<Edge>, k: nat) {
    exists m :: 0 <= m < |edges| && (edges[m].from == k || edges[m].to == k)
  }

  /** The graph's nodes stand for entries, its edges are the pairs, and no node is left alone. */
  ghost predicate Lowered(flow: Flow, org: seq<nat>, pairs: seq<(nat, nat)>) {
    && Names(flow.nodes, org) && |flow.edges| == |pairs| && InRange(|org|, flow.edges)
    && (forall m :: 0 <= m < |pairs| ==> org[flow.edges[m].from] == pairs[m].0 && org[flow.edges[m].to] == pairs[m].1)
    && (forall k :: 0 <= k < |org| ==> Drawn(flow.edges, k))
  }

  lemma TokenIdIs(entries: seq<Entry>, k: nat)
    requires k < |entries|
    ensures TokenId(Token(entries, k)) == Id(k)
  {
    var t, n := Token(entries, k), |Id(k)|;
    assert t[n] == '[';
    forall i | 0 <= i < n ensures !IsOpen(t[i]) {
      assert i > 0 ==> t[i] == Decimal(k)[i - 1] && t[i] in Decimal(k);
    }
    assert OpenIndex(t, 0) == n;
    assert t[..n] == Id(k);
  }

  lemma AddTokenNames(nodes: seq<Node>, org: seq<nat>, entries: seq<Entry>, k: nat) returns (org': seq<nat>)
    requires Names(nodes, org) && k < |entries|
    ensures var nodes' := AddToken(nodes, Token(entries, k));
            var idx := IndexOf(nodes', Id(k), 0);
            && Names(nodes', org') && org <= org' && 0 <= idx < |org'| && org'[idx] == k
            && |org'| <= |org| + 1 && (|org'| > |org| ==> idx == |org|)
  {
    TokenIdIs(entries, k);
    WithNodeFinds(nodes, Id(k));
    org' := if IndexOf(nodes, Id(k), 0) >= 0 then org else org + [k];
    var nodes' := AddToken(nodes, Token(entries, k));
    var idx := IndexOf(nodes', Id(k), 0);
    assert idx >= 0 && nodes'[idx].id == Id(k);
    IdInjective(org'[idx], k);
  }

  lemma LowerStep(flow: Flow, org: seq<nat>, pairs: seq<(nat, nat)>, entries: seq<Entry>, j: nat, i: nat)
    returns (org': seq<nat>)
    requires Lowered(flow, org, pairs) && j < |entries| && i < |entries|
    ensures Lowered(AddChain(flow, [Token(entries, j), Token(entries, i)]), org', pairs + [(j, i)])
  {
    hide AddToken, Token, TokenId, IndexOf;
    var tj, ti := Token(entries, j), Token(entries, i);
    TokenIdIs(entries, j);
    TokenIdIs(entries, i);
    var mid := AddTokenNames(flow.nodes, org, entries, j);
    var nodes1 := AddToken(flow.nodes, tj);
    org' := AddTokenNames(nodes1, mid, entries, i);
    var nodes2 := AddToken(nodes1, ti);
    var from, to := IndexOf(nodes1, Id(j), 0), IndexOf(nodes2, Id(i), 0);
    TwoTokenChain(flow, tj, ti);
    var edges' := flow.edges + [Edge(from, to)];
    assert AddChain(flow, [tj, ti]) == Flow(nodes2, edges');
    forall k | 0 <= k < |org'| ensures Drawn(edges', k) {
      if k < |org| {
        assert Drawn(flow.edges, k);
        var m :| 0 <= m < |pairs| && (flow.edges[m].from == k || flow.edges[m].to == k);
        assert edges'[m] == flow.edges[m];
      } else {
        assert edges'[|pairs|] == Edge(from, to);
      }
    }
  }

  lemma TwoTokenChain(flow: Flow, a: string, b: string)
    ensures var nodes1 := AddToken(flow.nodes, a);
            var nodes2 := AddToken(nodes1, b);
            AddChain(flow, [a, b])
            == Flow(nodes2, flow.edges + [Edge(IndexOf(nodes1, TokenId(a), 0), IndexOf(nodes2, TokenId(b), 0))])
  {
    hide AddToken, IndexOf, TokenId;
    assert [a, b][1..] == [b] && [b][1..] == [];
    var nodes1 := AddToken(flow.nodes, a);
    var nodes2 := AddToken(nodes1, b);
    var from, to := IndexOf(nodes1, TokenId(a), 0), IndexOf(nodes2, TokenId(b), 0);
    assert TokenIndices(nodes1, [b]) == [to];
    assert TokenIndices(flow.nodes, [a, b]) == [from] + [to] == [from, to];
    assert [from, to][1..] == [to];
    assert ChainEdges([from, to]) == [Edge(from, to)] + ChainEdges([to]) == [Edge(from, to)];
    assert AddTokens(nodes2, []) == nodes2;
    assert AddTokens(nodes1, [b]) == AddTokens(nodes2, [b][1..]) == nodes2;
    assert AddTokens(flow.nodes, [a, b]) == AddTokens(nodes1, [a, b][1..]) == nodes2;
  }

  lemma {:induction false} FoldIsLowered(flow: Flow, org: seq<nat>, done: seq<(nat, nat)>, entries: seq<Entry>,
                                         pairs: seq<(nat, nat)>) returns (org': seq<nat>)
    requires Lowered(flow, org, done) && EdgesFit(entries, pairs)
    ensures Lowered(Fold(flow, entries, pairs), org', done + pairs)
    decreases |pairs|
  {
    hide Lowered, AddChain;
    if pairs == [] {
      assert done + pairs == done;
      org' := org;
    } else {
      var next := LowerStep(flow, org, done, entries, pairs[0].0, pairs[0].1);
      var flow' := AddChain(flow, [Token(entries, pairs[0].0), Token(entries, pairs[0].1)]);
      org' := FoldIsLowered(flow', next, done + [pairs[0]], entries, pairs[1..]);
      assert done + [pairs[0]] + pairs[1..] == done + pairs;
    }
  }

  // ----- layers are depths -----

  /** An indented entry with an entry one level up before it. */
  ghost predicate HasParent(depths: seq<nat>, i: nat) {
    i < |depths| && depths[i] > 0 && !IsParent(depths, i, -1)
  }

  ghost predicate IsParentOfSome(depths: seq<nat>, j: nat) {
    exists i :: 0 <= i < |depths| && depths[i] > 0 && IsParent(depths, i, j)
  }

  /** The entries that occur in an edge. */
  ghost predicate OccursInEdge(depths: seq<nat>, e: nat) {
    HasParent(depths, e) || IsParentOfSome(depths, e)
  }

  /** An indented entry that is a parent has a parent itself. */
  ghost predicate ParentsHaveParents(depths: seq<nat>) {
    forall j: nat :: j < |depths| && depths[j] > 0 && IsParentOfSome(depths, j) ==> HasParent(depths, j)
  }

  /** The edges lead from parents to children; a node has one in-edge if its entry has a parent, and none otherwise. */
  ghost predicate IsForest(edges: seq<Edge>, org: seq<nat>, depths: seq<nat>)
    requires InRange(|org|, edges)
  {
    && (forall m :: 0 <= m < |edges| ==> IsParent(depths, org[edges[m].to], org[edges[m].from]))
    && (forall m, m' :: 0 <= m < m' < |edges| ==> edges[m].to != edges[m'].to)
    && (forall k: nat :: k < |org| ==> (IsTarget(edges, k) <==> HasParent(depths, org[k])))
  }

  ghost predicate IsTarget(edges: seq<Edge>, k: nat) {
    exists m :: 0 <= m < |edges| && edges[m].to == k
  }

  lemma ParentIsUnique(depths: seq<nat>, i: nat, j: int, j': int)
    requires IsParent(depths, i, j) && IsParent(depths, i, j') && depths[i] > 0
    ensures j == j'
  {
  }

  lemma HasParentIf(depths: seq<nat>, i: nat, j: nat)
    requires IsParent(depths, i, j) && depths[i] > 0
    ensures HasParent(depths, i)
  {
    if IsParent(depths, i, -1) {
      ParentIsUnique(depths, i, j, -1);
    }
  }

  lemma PairOf(flow: Flow, org: seq<nat>, pairs: seq<(nat, nat)>, depths: seq<nat>, m: nat)
    requires IsEdgeList(depths, |depths|, pairs) && Lowered(flow, org, pairs) && m < |flow.edges|
    ensures m < |pairs| && pairs[m].1 < |depths| && flow.edges[m].from < |org| && flow.edges[m].to < |org|
    ensures org[flow.edges[m].from] == pairs[m].0 && org[flow.edges[m].to] == pairs[m].1
    ensures IsParent(depths, pairs[m].1, pairs[m].0) && depths[pairs[m].1] > 0
  {
    hide IsParent, Names, Drawn;
  }

  /** The edge into an entry that has a parent. */
  lemma EdgeInto(flow: Flow, org: seq<nat>, pairs: seq<(nat, nat)>, depths: seq<nat>, i: nat) returns (m: nat)
    requires IsEdgeList(depths, |depths|, pairs) && Lowered(flow, org, pairs) && HasParent(depths, i)
    ensures m < |flow.edges| && m < |pairs| && pairs[m].1 == i
  {
    hide IsParent, Names, Drawn;
    assert HasPair(pairs, i);
    m :| 0 <= m < |pairs| && pairs[m].1 == i;
  }

  /** The nodes of the graph stand for exactly the entries that occur in an edge. */
  lemma OrgOccurs(flow: Flow, org: seq<nat>, pairs: seq<(nat, nat)>, depths: seq<nat>, e: nat)
    requires IsEdgeList(depths, |depths|, pairs) && Lowered(flow, org, pairs)
    ensures e in org <==> OccursInEdge(depths, e)
  {
    hide IsParent, IsEdgeList, HasParent;
    if e in org {
      var k :| 0 <= k < |org| && org[k] == e;
      assert Drawn(flow.edges, k);
      var m :| 0 <= m < |flow.edges| && (flow.edges[m].from == k || flow.edges[m].to == k);
      PairOf(flow, org, pairs, depths, m);
      HasParentIf(depths, pairs[m].1, pairs[m].0);
    }
    if HasParent(depths, e) {
      var m := EdgeInto(flow, org, pairs, depths, e);
      PairOf(flow, org, pairs, depths, m);
    } else if IsParentOfSome(depths, e) {
      var i :| 0 <= i < |depths| && depths[i] > 0 && IsParent(depths, i, e);
      HasParentIf(depths, i, e);
      var m := EdgeInto(flow, org, pairs, depths, i);
      PairOf(flow, org, pairs, depths, m);
      ParentIsUnique(depths, i, e, pairs[m].0);
    }
  }

  /** So the drawn entries have parents exactly when the indented parents have. */
  lemma DrawnIffParents(flow: Flow, org: seq<nat>, pairs: seq<(nat, nat)>, depths: seq<nat>)
    requires IsEdgeList(depths, |depths|, pairs) && Lowered(flow, org, pairs)
    ensures DrawnHaveParents(depths, org) <==> ParentsHaveParents(depths)
  {
    forall e: nat ensures e in org <==> OccursInEdge(depths, e) {
      OrgOccurs(flow, org, pairs, depths, e);
    }
    hide IsParentOfSome, IsParent, IsEdgeList, Lowered;
    if DrawnHaveParents(depths, org) {
      forall j: nat | j < |depths| && depths[j] > 0 && IsParentOfSome(depths, j) ensures HasParent(depths, j) {
        assert j in org;
        var k :| 0 <= k < |org| && org[k] == j;
      }
    }
    if ParentsHaveParents(depths) {
      forall k | 0 <= k < |org| && org[k] < |depths| && depths[org[k]] > 0 ensures !IsParent(depths, org[k], -1) {
        assert org[k] in org;
      }
    }
  }

  /** The lowering is a forest. */
  lemma LoweringIsForest(flow: Flow, org: seq<nat>, pairs: seq<(nat, nat)>, depths: seq<nat>)
    requires IsEdgeList(depths, |depths|, pairs) && Lowered(flow, org, pairs) && Distinct(org)
    ensures InRange(|org|, flow.edges) && IsForest(flow.edges, org, depths)
  {
    var edges := flow.edges;
    assert forall m, m' :: 0 <= m < m' < |pairs| ==> pairs[m].1 < pairs[m'].1;
    hide IsParent, HasParent, IsEdgeList, Names;
    forall m | 0 <= m < |edges| ensures IsParent(depths, org[edges[m].to], org[edges[m].from]) {
      PairOf(flow, org, pairs, depths, m);
    }
    forall k: nat | k < |org| ensures IsTarget(edges, k) <==> HasParent(depths, org[k]) {
      if IsTarget(edges, k) {
        var m :| 0 <= m < |edges| && edges[m].to == k;
        PairOf(flow, org, pairs, depths, m);
        HasParentIf(depths, pairs[m].1, pairs[m].0);
      }
      if HasParent(depths, org[k]) {
        var m := EdgeInto(flow, org, pairs, depths, org[k]);
        PairOf(flow, org, pairs, depths, m);
        assert org[edges[m].to] == org[k];
      }
    }
  }

  ghost predicate DrawnHaveParents(depths: seq<nat>, org: seq<nat>) {
    forall k :: 0 <= k < |org| && org[k] < |depths| && depths[org[k]] > 0 ==> !IsParent(depths, org[k], -1)
  }

  /** An indented list: starts at depth 0 and goes down one level at a time. */
  ghost predicate Outline(depths: seq<nat>) {
    (|depths| > 0 ==> depths[0] == 0) && forall i :: 0 < i < |depths| ==> depths[i] <= depths[i - 1] + 1
  }

  lemma {:induction false} OutlineHasParents(depths: seq<nat>, i: nat, j: int)
    requires Outline(depths) && i < |depths| && depths[i] > 0 && -1 <= j < i
    requires forall k :: j < k < i ==> depths[k] >= depths[i]
    ensures !IsParent(depths, i, -1)
    decreases j
  {
    assert depths[0] == 0;
    if j == -1 {
      assert false;
    } else if depths[j] >= depths[i] {
      OutlineHasParents(depths, i, j - 1);
    } else {
      assert depths[j + 1] <= depths[j + 1 - 1] + 1;
    }
  }

  /** Along a walk the depth grows by one a step. */
  lemma {:induction false} DepthAlongWalk(edges: seq<Edge>, depth: seq<nat>, p: seq<nat>, v: nat, k: nat)
    requires InRange(|depth|, edges) && v < |depth| && WalkTo(edges, p, v) && k < |p|
    requires forall m :: 0 <= m < |edges| ==> depth[edges[m].to] == depth[edges[m].from] + 1
    ensures p[k] < |depth| && depth[p[k]] + (|p| - 1 - k) == depth[v]
    decreases |p| - k
  {
    if k < |p| - 1 {
      DepthAlongWalk(edges, depth, p, v, k + 1);
      assert HasEdge(edges, p[k], p[k + 1]);
    }
  }

  lemma {:induction false} WalkFromRoot(edges: seq<Edge>, depth: seq<nat>, v: nat) returns (p: seq<nat>)
    requires InRange(|depth|, edges) && v < |depth|
    requires forall m :: 0 <= m < |edges| ==> depth[edges[m].to] == depth[edges[m].from] + 1
    requires forall u :: 0 <= u < |depth| && depth[u] > 0 ==> exists m :: 0 <= m < |edges| && edges[m].to == u
    ensures WalkTo(edges, p, v) && |p| - 1 == depth[v]
    decreases depth[v]
  {
    if depth[v] == 0 {
      p := [v];
    } else {
      var m :| 0 <= m < |edges| && edges[m].to == v;
      var u := edges[m].from;
      assert HasEdge(edges, u, v);
      var q := WalkFromRoot(edges, depth, u);
      WalkExtend(edges, q, u, v);
      p := q + [v];
    }
  }

  /** A node of a graph whose edges go down one level each is as deep as its longest walk, provided every
      indented node has an in-edge. */
  lemma LayerIsDepth(edges: seq<Edge>, depth: seq<nat>, v: nat, layer: int)
    requires InRange(|depth|, edges) && v < |depth| && LongestAcyclicWalk(edges, v, layer)
    requires forall m :: 0 <= m < |edges| ==> depth[edges[m].to] == depth[edges[m].from] + 1
    requires forall u :: 0 <= u < |depth| && depth[u] > 0 ==> exists m :: 0 <= m < |edges| && edges[m].to == u
    ensures layer == depth[v]
  {
    NoCycle(edges, depth, v);
    LongestIsUnrestricted(edges, v, layer);
    var p := WalkFromRoot(edges, depth, v);
    var q :| WalkTo(edges, q, v) && |q| - 1 == layer;
    DepthAlongWalk(edges, depth, q, v, 0);
  }

  lemma NoCycle(edges: seq<Edge>, depth: seq<nat>, v: nat)
    requires InRange(|depth|, edges) && v < |depth|
    requires forall m :: 0 <= m < |edges| ==> depth[edges[m].to] == depth[edges[m].from] + 1
    ensures !BelowCycle(edges, v)
  {
    if BelowCycle(edges, v) {
      var p: seq<nat>, k :| WalkTo(edges, p, v) && 0 < k < |p| && p[0] == p[k];
      DepthAlongWalk(edges, depth, p, v, 0);
      DepthAlongWalk(edges, depth, p, v, k);
    }
  }

  /** Layers are indentation depths exactly when every indented entry that is a parent has a parent. */
  lemma LayersAreDepths(flow: Flow, org: seq<nat>, pairs: seq<(nat, nat)>, depths: seq<nat>, layers: seq<int>)
    requires IsEdgeList(depths, |depths|, pairs) && Lowered(flow, org, pairs) && Distinct(org)
    requires |layers| == |org| && forall v :: 0 <= v < |org| ==> LongestAcyclicWalk(flow.edges, v, layers[v])
    ensures forall k :: 0 <= k < |org| ==> org[k] < |depths|
    ensures ParentsHaveParents(depths) <==> forall k :: 0 <= k < |org| ==> layers[k] == depths[org[k]]
  {
    hide LongestAcyclicWalk, IsEdgeList, Lowered, DrawnHaveParents, Distinct, ParentsHaveParents;
    DrawnIffParents(flow, org, pairs, depths);
    DepthsRise(flow, org, pairs, depths);
    if DrawnHaveParents(depths, org) {
      forall k: nat | k < |org| ensures layers[k] == depths[org[k]] {
        LayerIsItsDepth(flow, org, pairs, depths, k, layers[k]);
      }
    }
    if forall k :: 0 <= k < |org| ==> layers[k] == depths[org[k]] {
      forall k: nat | k < |org| && depths[org[k]] > 0 ensures !IsParent(depths, org[k], -1) {
        DeepHasParent(flow, org, pairs, depths, k, layers[k]);
      }
      AllHaveParents(depths, org);
    }
  }

  /** Where depths jump: of three entries at depths 0, 2 and 3 only the edge from the second to the third is listed,
      and some node is not drawn at its depth. */
  lemma JumpIsNotDrawnAtItsDepth(flow: Flow, org: seq<nat>, pairs: seq<(nat, nat)>, layers: seq<int>)
    requires var depths := [0, 2, 3];
             && IsEdgeList(depths, |depths|, pairs) && Lowered(flow, org, pairs) && Distinct(org)
    requires |layers| == |org| && forall v :: 0 <= v < |org| ==> LongestAcyclicWalk(flow.edges, v, layers[v])
    ensures !ParentsHaveParents([0, 2, 3])
    ensures exists k :: 0 <= k < |org| && org[k] < 3 && layers[k] != [0, 2, 3][org[k]]
  {
    hide LongestAcyclicWalk, IsEdgeList, Lowered, Distinct;
    var depths: seq<nat> := [0, 2, 3];
    assert IsParent(depths, 2, 1) && IsParent(depths, 1, -1);
    assert IsParentOfSome(depths, 1) && !HasParent(depths, 1);
    LayersAreDepths(flow, org, pairs, depths, layers);
  }

  lemma AllHaveParents(depths: seq<nat>, org: seq<nat>)
    requires forall k: nat :: k < |org| ==> org[k] < |depths| && (depths[org[k]] > 0 ==> !IsParent(depths, org[k], -1))
    ensures DrawnHaveParents(depths, org)
  {
    hide IsParent;
  }

  /** Every drawn node is one of the chart, and every edge leads one level down. */
  lemma DepthsRise(flow: Flow, org: seq<nat>, pairs: seq<(nat, nat)>, depths: seq<nat>)
    requires IsEdgeList(depths, |depths|, pairs) && Lowered(flow, org, pairs)
    ensures InRange(|org|, flow.edges) && forall k :: 0 <= k < |org| ==> org[k] < |depths|
    ensures forall m :: 0 <= m < |flow.edges| ==> depths[org[flow.edges[m].to]] == depths[org[flow.edges[m].from]] + 1
  {
    hide Names;
    forall k | 0 <= k < |org| ensures org[k] < |depths| {
      assert Drawn(flow.edges, k);
    }
    forall m | 0 <= m < |flow.edges|
      ensures depths[org[flow.edges[m].to]] == depths[org[flow.edges[m].from]] + 1
    {
      assert IsParent(depths, pairs[m].1, pairs[m].0);
    }
  }

  lemma LayerIsItsDepth(flow: Flow, org: seq<nat>, pairs: seq<(nat, nat)>, depths: seq<nat>, k: nat, layer: int)
    requires IsEdgeList(depths, |depths|, pairs) && Lowered(flow, org, pairs) && Distinct(org)
    requires k < |org| && LongestAcyclicWalk(flow.edges, k, layer) && DrawnHaveParents(depths, org)
    ensures org[k] < |depths| && layer == depths[org[k]]
  {
    hide LongestAcyclicWalk, IsEdgeList, Lowered, Distinct, IsParent;
    DepthsRise(flow, org, pairs, depths);
    var depth := seq(|org|, u requires 0 <= u < |org| => depths[org[u]]);
    forall u | 0 <= u < |org| && depth[u] > 0 ensures exists m :: 0 <= m < |flow.edges| && flow.edges[m].to == u {
      HasInEdge(flow, org, pairs, depths, u);
    }
    LayerIsDepth(flow.edges, depth, k, layer);
  }

  lemma DeepHasParent(flow: Flow, org: seq<nat>, pairs: seq<(nat, nat)>, depths: seq<nat>, k: nat, layer: int)
    requires IsEdgeList(depths, |depths|, pairs) && Lowered(flow, org, pairs)
    requires k < |org| && LongestAcyclicWalk(flow.edges, k, layer) && layer > 0
    ensures !IsParent(depths, org[k], -1)
  {
    hide LongestAcyclicWalk, Names;
    PositiveLayerHasInEdge(flow.edges, k, layer);
    var m :| 0 <= m < |flow.edges| && flow.edges[m].to == k;
    assert IsParent(depths, pairs[m].1, pairs[m].0);
  }

  lemma HasInEdge(flow: Flow, org: seq<nat>, pairs: seq<(nat, nat)>, depths: seq<nat>, u: nat)
    requires IsEdgeList(depths, |depths|, pairs) && Lowered(flow, org, pairs) && Distinct(org)
    requires u < |org| && org[u] < |depths| && depths[org[u]] > 0 && !IsParent(depths, org[u], -1)
    ensures exists m :: 0 <= m < |flow.edges| && flow.edges[m].to == u
  {
    var m :| 0 <= m < |pairs| && pairs[m].1 == org[u];
    assert org[flow.edges[m].to] == org[u];
  }

  lemma PositiveLayerHasInEdge(edges: seq<Edge>, v: nat, layer: int)
    requires LongestAcyclicWalk(edges, v, layer) && layer > 0
    ensures exists m :: 0 <= m < |edges| && edges[m].to == v
  {
    var p :| AcyclicWalkTo(edges, p, v) && |p| - 1 == layer;
    assert HasEdge(edges, p[|p| - 2], p[|p| - 2 + 1]);
  }

  /** In an outline every indented entry has a parent. */
  lemma OutlineParentsHaveParents(depths: seq<nat>)
    requires Outline(depths)
    ensures forall i: nat :: i < |depths| && depths[i] > 0 ==> HasParent(depths, i)
    ensures ParentsHaveParents(depths)
  {
    forall i: nat | i < |depths| && depths[i] > 0 ensures HasParent(depths, i) {
      OutlineHasParents(depths, i, i - 1);
    }
  }

  /** The whole renderer up to the layout: lower to text, parse the text, assign layers. Node `k` of the graph
      stands for entry `org[k]`; the nodes are the entries that occur in an edge, the graph is a forest in which
      exactly the entries with a parent have an in-edge, and layers are depths exactly when every indented entry
      that is a parent has one itself. */
  method LayoutOrgChart(entries: seq<Entry>) returns (g: Graph, maxLayer: int, ghost org: seq<nat>)
    ensures fresh(g) && g.Valid()
    ensures AllPlain(entries) ==>
      && |org| == |g.nodes| && Distinct(org)
      && (forall k :: 0 <= k < |org| ==> org[k] < |entries| && g.nodes[k].id == Id(org[k]))
      && (forall e: nat :: e in org <==> OccursInEdge(Depths(entries), e))
      && InRange(|org|, g.edges) && IsForest(g.edges, org, Depths(entries))
      && (ParentsHaveParents(Depths(entries)) <==>
          forall k :: 0 <= k < |org| ==> g.nodes[k].layer == entries[org[k]].depth)
    ensures AllPlain(entries) && Outline(Depths(entries)) ==>
      forall k :: 0 <= k < |org| ==> g.nodes[k].layer == entries[org[k]].depth
  {
    hide Lowered, IsEdgeList, ParentsHaveParents, Outline, AllPlain, IsForest, OccursInEdge, SameButLayers, Names,
      ReadLines, Lines, Normalize, EdgeText, LongestAcyclicWalk, LongestWalk, BelowCycle, InRange;
    var text, pairs := FlowchartText(entries);
    var leftRight;
    g, leftRight := Parse(text);
    ghost var flow := Flow(g.nodes, g.edges);
    org := [];
    if AllPlain(entries) {
      org := ParsedIsLowered(entries, pairs, flow);
    }
    ghost var queue;
    maxLayer, queue := g.AssignLayers();
    if AllPlain(entries) {
      Laid(entries, pairs, flow, org, g.nodes);
    }
  }

  lemma ParsedIsLowered(entries: seq<Entry>, pairs: seq<(nat, nat)>, flow: Flow) returns (org: seq<nat>)
    requires AllPlain(entries) && IsEdgeList(Depths(entries), |entries|, pairs)
    requires flow == ReadLines(Lines(Normalize("graph TD\n" + EdgeText(entries, pairs))), false, Flow([], []))
    ensures Lowered(flow, org, pairs)
  {
    hide *;
    EdgeListFits(entries, pairs);
    ParsedFlowchart(entries, pairs);
    NothingLowered();
    org := FoldIsLowered(Flow([], []), [], [], entries, pairs);
    assert [] + pairs == pairs;
  }

  lemma NothingLowered()
    ensures Lowered(Flow([], []), [], [])
  {
  }

  lemma EdgeListFits(entries: seq<Entry>, pairs: seq<(nat, nat)>)
    requires IsEdgeList(Depths(entries), |entries|, pairs)
    ensures EdgesFit(entries, pairs)
  {
    hide Depths;
    forall m | 0 <= m < |pairs| ensures pairs[m].0 < |entries| && pairs[m].1 < |entries| {
      assert IsParent(Depths(entries), pairs[m].1, pairs[m].0);
    }
  }

  lemma Laid(entries: seq<Entry>, pairs: seq<(nat, nat)>, flow: Flow, org: seq<nat>, nodes: seq<Node>)
    requires IsEdgeList(Depths(entries), |entries|, pairs) && Lowered(flow, org, pairs)
    requires SameButLayers(flow.nodes, nodes)
    requires forall i, j :: 0 <= i < j < |nodes| ==> nodes[i].id != nodes[j].id
    requires forall v :: 0 <= v < |nodes| ==> LongestAcyclicWalk(flow.edges, v, nodes[v].layer)
    ensures |org| == |nodes| && Distinct(org)
    ensures forall k :: 0 <= k < |org| ==> org[k] < |entries| && nodes[k].id == Id(org[k])
    ensures forall e: nat :: e in org <==> OccursInEdge(Depths(entries), e)
    ensures InRange(|org|, flow.edges) && IsForest(flow.edges, org, Depths(entries))
    ensures ParentsHaveParents(Depths(entries)) <==>
            forall k :: 0 <= k < |org| ==> nodes[k].layer == entries[org[k]].depth
    ensures Outline(Depths(entries)) ==> ParentsHaveParents(Depths(entries))
  {
    hide Outline, LongestAcyclicWalk, ParentsHaveParents, OccursInEdge, IsForest, IsEdgeList;
    forall k | 0 <= k < |nodes| ensures nodes[k].id == flow.nodes[k].id {
      assert flow.nodes[k].(layer := 0) == nodes[k].(layer := 0);
    }
    assert Distinct(org);
    var layers := LayersOf(nodes);
    forall v | 0 <= v < |nodes| ensures LongestAcyclicWalk(flow.edges, v, layers[v]) {
      assert layers[v] == nodes[v].layer;
    }
    LayersAreDepths(flow, org, pairs, Depths(entries), layers);
    assert forall k :: 0 <= k < |org| ==> layers[k] == nodes[k].layer;
    forall e: nat ensures e in org <==> OccursInEdge(Depths(entries), e) {
      OrgOccurs(flow, org, pairs, Depths(entries), e);
    }
    LoweringIsForest(flow, org, pairs, Depths(entries));
    if Outline(Depths(entries)) {
      OutlineParentsHaveParents(Depths(entries));
    }
  }
}
