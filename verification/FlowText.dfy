/** The flowchart parser of src/tui/mermaid/mermaid.cpp: lines of node tokens joined by arrows. */
module FlowText {
  import opened FlowGraph
  import opened Text
  import opened Walks

  const ARROW := "-->"

  predicate IsSpace(c: char) {
    c == ' ' || c == '\t' || c == '\r' || c == '\n'
  }

  function TrimLeft(s: string): (r: string)
    ensures |r| <= |s|
  {
    if s != "" && IsSpace(s[0]) then TrimLeft(s[1..]) else s
  }

  function TrimRight(s: string): (r: string)
    ensures |r| <= |s|
  {
    if s != "" && IsSpace(s[|s| - 1]) then TrimRight(s[..|s| - 1]) else s
  }

  function Trim(s: string): (r: string)
    ensures |r| <= |s|
  {
    TrimRight(TrimLeft(s))
  }

  // ----- node tokens -----

  predicate IsOpen(c: char) {
    c == '[' || c == '{' || c == '('
  }

  function CloseOf(c: char): char {
    if c == '[' then ']' else if c == '{' then '}' else ')'
  }

  /** The first bracket at or after `i`, or the length of the token. */
  function OpenIndex(token: string, i: nat): (d: nat)
    requires i <= |token|
    ensures i <= d <= |token|
    ensures d < |token| ==> IsOpen(token[d])
    ensures forall k :: i <= k < d ==> !IsOpen(token[k])
    decreases |token| - i
  {
    if i == |token| || IsOpen(token[i]) then i else OpenIndex(token, i + 1)
  }

  function TokenId(token: string): string {
    token[..OpenIndex(token, 0)]
  }

  function TokenCaption(token: string): string {
    var delim := OpenIndex(token, 0);
    if delim == |token| then token
    else
      var close := Find(token, [CloseOf(token[delim])], delim + 1);
      var inner :=
        if close >= 0 then token[delim + 1..close]
        else if delim == |token| - 1 then ""
        else token[delim + 1..|token| - 1];
      if inner != "" && inner[0] == '[' && inner[|inner| - 1] == ']' && |inner| >= 2 then inner[1..|inner| - 1]
      else inner
  }

  // ----- edge lines -----

  /** What follows an arrow: the edge label `|text|`, if there is one, is dropped. */
  function DropLabel(remaining: string): (r: string)
    ensures |r| <= |remaining|
  {
    var trimmed := Trim(remaining);
    if trimmed != "" && trimmed[0] == '|' then
      var close := Find(trimmed, "|", 1);
      if close >= 0 then trimmed[close + 1..] else remaining
    else remaining
  }

  function TokenList(s: string): seq<string> {
    if Trim(s) == "" then [] else [Trim(s)]
  }

  /** The node tokens of a line, in order. */
  function Chain(line: string): seq<string>
    decreases |line|
  {
    var pos := Find(line, ARROW, 0);
    if pos < 0 then TokenList(line)
    else TokenList(line[..pos]) + Chain(DropLabel(line[pos + 3..]))
  }

  // ----- building the graph -----

  function SetCaption(nodes: seq<Node>, token: string): (r: seq<Node>)
    requires IndexOf(nodes, TokenId(token), 0) >= 0
    ensures |r| == |nodes|
    ensures forall k :: 0 <= k < |nodes| ==> r[k] == nodes[k].(caption := r[k].caption)
  {
    var k := IndexOf(nodes, TokenId(token), 0);
    if OpenIndex(token, 0) == |token| then nodes else nodes[k := nodes[k].(caption := TokenCaption(token))]
  }

  function AddToken(nodes: seq<Node>, token: string): (r: seq<Node>)
    ensures IndexOf(r, TokenId(token), 0) >= 0 && |r| >= |nodes|
  {
    WithNodeFinds(nodes, TokenId(token));
    var r := SetCaption(WithNode(nodes, TokenId(token)), token);
    assert r[IndexOf(WithNode(nodes, TokenId(token)), TokenId(token), 0)].id == TokenId(token);
    r
  }

  function AddTokens(nodes: seq<Node>, tokens: seq<string>): (r: seq<Node>)
    ensures |r| >= |nodes|
    decreases tokens
  {
    if tokens == [] then nodes else AddTokens(AddToken(nodes, tokens[0]), tokens[1..])
  }

  /** The indices of the tokens' nodes, as they are when the tokens are read. */
  function TokenIndices(nodes: seq<Node>, tokens: seq<string>): (r: seq<nat>)
    ensures |r| == |tokens|
    decreases tokens
  {
    if tokens == [] then []
    else
      var nodes' := AddToken(nodes, tokens[0]);
      [IndexOf(nodes', TokenId(tokens[0]), 0)] + TokenIndices(nodes', tokens[1..])
  }

  /** Edges between consecutive nodes of a chain. */
  function ChainEdges(chain: seq<nat>): seq<Edge> {
    if |chain| < 2 then [] else [Edge(chain[0], chain[1])] + ChainEdges(chain[1..])
  }

  method ParseNodeToken(g: Graph, token: string) returns (idx: nat)
    requires g.Valid()
    modifies g`nodes
    ensures g.Valid() && g.nodes == AddToken(old(g.nodes), token) && idx == IndexOf(g.nodes, TokenId(token), 0)
  {
    var delim := OpenIndex(token, 0);
    idx := g.GetOrAdd(TokenId(token));
    if delim < |token| {
      g.nodes := g.nodes[idx := g.nodes[idx].(caption := TokenCaption(token))];
    }
  }

  lemma {:induction false} TokensSnoc(nodes: seq<Node>, tokens: seq<string>, t: string)
    ensures AddTokens(nodes, tokens + [t]) == AddToken(AddTokens(nodes, tokens), t)
    ensures TokenIndices(nodes, tokens + [t])
            == TokenIndices(nodes, tokens) + [IndexOf(AddTokens(nodes, tokens + [t]), TokenId(t), 0)]
    decreases tokens
  {
    if tokens == [] {
      assert [] + [t] == [t] && [t][1..] == [];
    } else {
      assert (tokens + [t])[1..] == tokens[1..] + [t];
      TokensSnoc(AddToken(nodes, tokens[0]), tokens[1..], t);
    }
  }

  lemma {:induction false} ChainEdgesSnoc(chain: seq<nat>, x: nat)
    requires chain != []
    ensures ChainEdges(chain + [x]) == ChainEdges(chain) + [Edge(chain[|chain| - 1], x)]
  {
    if |chain| == 1 {
      assert (chain + [x])[1..] == [x];
    } else {
      assert (chain + [x])[1..] == chain[1..] + [x];
      ChainEdgesSnoc(chain[1..], x);
    }
  }

  lemma {:induction false} IndicesInRange(nodes: seq<Node>, tokens: seq<string>)
    ensures forall k :: 0 <= k < |tokens| ==> TokenIndices(nodes, tokens)[k] < |AddTokens(nodes, tokens)|
    decreases tokens
  {
    if tokens != [] {
      IndicesInRange(AddToken(nodes, tokens[0]), tokens[1..]);
    }
  }

  method ParseEdgeLine(g: Graph, line: string)
    requires g.Valid()
    modifies g
    ensures g.Valid() && g.nodes == AddTokens(old(g.nodes), Chain(line))
    ensures g.edges == old(g.edges) + ChainEdges(TokenIndices(old(g.nodes), Chain(line)))
  {
    var chain := ReadChain(g, line);
    IndicesInRange(old(g.nodes), Chain(line));
    PushEdges(g, chain);
  }

  /** The node tokens of the line, read from left to right. */
  method ReadChain(g: Graph, line: string) returns (chain: seq<nat>)
    requires g.Valid()
    modifies g`nodes
    ensures g.Valid() && g.nodes == AddTokens(old(g.nodes), Chain(line))
    ensures chain == TokenIndices(old(g.nodes), Chain(line))
  {
    hide AddToken, AddTokens, TokenIndices, ChainEdges, TokenId, Trim, Find, Chain, DropLabel, IndexOf;
    var remaining := line;
    chain := [];
    ghost var read: seq<string> := [];
    NoTokens(g.nodes);
    while true
      invariant g.Valid()
      invariant g.nodes == AddTokens(old(g.nodes), read) && chain == TokenIndices(old(g.nodes), read)
      invariant read + Chain(remaining) == Chain(line)
      decreases |remaining|
    {
      ChainStep(read, remaining);
      var pos := Find(remaining, ARROW, 0);
      var token := Trim(if pos < 0 then remaining else remaining[..pos]);
      if token != "" {
        var idx := ParseNodeToken(g, token);
        TokensSnoc(old(g.nodes), read, token);
        chain := chain + [idx];
        read := read + [token];
      }
      if pos < 0 { break; }
      remaining := DropLabel(remaining[pos + 3..]);
    }
  }

  lemma ChainStep(read: seq<string>, remaining: string)
    ensures var pos := Find(remaining, ARROW, 0);
            pos < 0 ==> read + Chain(remaining) == WithTokenOf(read, remaining)
    ensures var pos := Find(remaining, ARROW, 0);
            pos >= 0 ==>
              && pos + 3 <= |remaining|
              && read + Chain(remaining) == WithTokenOf(read, remaining[..pos]) + Chain(DropLabel(remaining[pos + 3..]))
  {
    hide Find, DropLabel, TokenList, WithTokenOf;
    var pos := Find(remaining, ARROW, 0);
    if pos >= 0 {
      var tokens, rest := TokenList(remaining[..pos]), Chain(DropLabel(remaining[pos + 3..]));
      TokenRead(read, remaining[..pos]);
      assert read + (tokens + rest) == (read + tokens) + rest;
    } else {
      TokenRead(read, remaining);
    }
  }

  lemma TokenRead(read: seq<string>, s: string)
    ensures WithTokenOf(read, s) == read + TokenList(s)
  {
    hide Trim;
  }

  ghost function WithTokenOf(read: seq<string>, s: string): seq<string> {
    if Trim(s) == "" then read else read + [Trim(s)]
  }

  lemma NoTokens(nodes: seq<Node>)
    ensures AddTokens(nodes, []) == nodes && TokenIndices(nodes, []) == []
  {
  }

  method PushEdges(g: Graph, chain: seq<nat>)
    requires g.Valid() && forall k :: 0 <= k < |chain| ==> chain[k] < |g.nodes|
    modifies g`edges
    ensures g.Valid() && g.edges == old(g.edges) + ChainEdges(chain)
  {
    if |chain| < 2 { return; }
    for i := 1 to |chain|
      invariant g.Valid() && g.edges == old(g.edges) + ChainEdges(chain[..i])
    {
      ChainEdgesSnoc(chain[..i], chain[i]);
      assert chain[..i] + [chain[i]] == chain[..i + 1];
      g.edges := g.edges + [Edge(chain[i - 1], chain[i])];
    }
    assert chain[..|chain|] == chain;
  }

  // ----- whole texts -----

  /** `;` separates lines too. */
  function Normalize(s: string): (r: string)
    ensures |r| == |s|
    ensures forall k :: 0 <= k < |s| ==> r[k] == if s[k] == ';' then '\n' else s[k]
  {
    seq(|s|, k requires 0 <= k < |s| => if s[k] == ';' then '\n' else s[k])
  }

  predicate IsHeader(line: string) {
    OccursAt(line, "graph", 0) || OccursAt(line, "flowchart", 0)
  }

  datatype Flow = Flow(nodes: seq<Node>, edges: seq<Edge>)

  function AddChain(flow: Flow, tokens: seq<string>): Flow {
    Flow(AddTokens(flow.nodes, tokens), flow.edges + ChainEdges(TokenIndices(flow.nodes, tokens)))
  }

  /** The graph after reading the given lines; `header` says whether the header line has been seen. */
  function ReadLines(lines: seq<string>, header: bool, flow: Flow): Flow
    decreases lines
  {
    if lines == [] then flow
    else
      var line := Trim(lines[0]);
      if line == "" then ReadLines(lines[1..], header, flow)
      else if !header then ReadLines(lines[1..], IsHeader(line), flow)
      else if Find(line, ARROW, 0) < 0 then ReadLines(lines[1..], header, flow)
      else ReadLines(lines[1..], header, AddChain(flow, Chain(line)))
  }

  /** The direction: that of the first header line. */
  function LeftRight(lines: seq<string>): bool
    decreases lines
  {
    if lines == [] then false
    else if Trim(lines[0]) != "" && IsHeader(Trim(lines[0])) then Find(Trim(lines[0]), "LR", 0) >= 0
    else LeftRight(lines[1..])
  }

  ghost predicate NoLayers(nodes: seq<Node>) {
    forall k :: 0 <= k < |nodes| ==> nodes[k].layer == 0
  }

  lemma {:induction false} NoLayersKept(nodes: seq<Node>, tokens: seq<string>)
    requires NoLayers(nodes)
    ensures NoLayers(AddTokens(nodes, tokens))
    decreases tokens
  {
    if tokens != [] {
      NoLayersKept(AddToken(nodes, tokens[0]), tokens[1..]);
    }
  }

  method Parse(input: string) returns (g: Graph, leftRight: bool)
    ensures fresh(g) && g.Valid()
    ensures Flow(g.nodes, g.edges) == ReadLines(Lines(Normalize(input)), false, Flow([], []))
    ensures leftRight == LeftRight(Lines(Normalize(input)))
    ensures forall k :: 0 <= k < |g.nodes| ==> g.nodes[k].layer == 0
  {
    g := new Graph();
    leftRight := false;
    var lines := Lines(Normalize(input));
    var header := false;
    for i := 0 to |lines|
      invariant fresh(g) && g.Valid()
      invariant ReadLines(lines[i..], header, Flow(g.nodes, g.edges)) == ReadLines(lines, false, Flow([], []))
      invariant LeftRight(lines) == if header then leftRight else LeftRight(lines[i..])
      invariant !header ==> !leftRight
      invariant NoLayers(g.nodes)
    {
      assert lines[i..][1..] == lines[i + 1..];
      var line := Trim(lines[i]);
      if line != "" {
        if !header {
          if IsHeader(line) {
            leftRight := Find(line, "LR", 0) >= 0;
            header := true;
          }
        } else if Find(line, ARROW, 0) >= 0 {
          NoLayersKept(g.nodes, Chain(line));
          ParseEdgeLine(g, line);
        }
      }
    }
  }
}
