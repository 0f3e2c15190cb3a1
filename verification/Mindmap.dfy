/** The mindmap renderer (src/tui/mermaid/mindmap.cpp) prints a tree from a flat preorder list, finding the
    connectors by looking ahead in the list. */
module Mindmap {
  import opened Text

  datatype Node = Node(text: string, depth: nat)

  const BAR := "\U{E2}\U{94}\U{82}   "
  const GAP := "    "
  const LAST := "\U{E2}\U{94}\U{94}\U{E2}\U{94}\U{80}\U{E2}\U{94}\U{80} "
  const TEE := "\U{E2}\U{94}\U{9C}\U{E2}\U{94}\U{80}\U{E2}\U{94}\U{80} "

  // ----- the look-ahead printer -----

  /** The first of the following nodes that is not deeper than `d` is at depth `d`. */
  ghost predicate More(after: seq<Node>, d: nat) {
    after != [] && (after[0].depth == d || (after[0].depth > d && More(after[1..], d)))
  }

  /** The bars and gaps for the levels 1 to `d` - 1. */
  ghost function Prefix(after: seq<Node>, d: nat): string {
    if d <= 1 then "" else Prefix(after, d - 1) + (if More(after, d - 1) then BAR else GAP)
  }

  ghost function Line(node: Node, after: seq<Node>): string {
    if node.depth == 0 then "\U{1B}[1m" + node.text + "\U{1B}[0m\n"
    else Prefix(after, node.depth) + (if More(after, node.depth) then TEE else LAST) + node.text + "\n"
  }

  ghost function Printed(nodes: seq<Node>): string {
    if nodes == [] then "" else Line(nodes[0], nodes[1..]) + Printed(nodes[1..])
  }

  /** Whether, looking ahead from position `i`, a node at depth `d` comes before a shallower one. */
  method LookAhead(nodes: seq<Node>, i: nat, d: nat) returns (found: bool)
    requires i <= |nodes|
    ensures found == More(nodes[i..], d)
  {
    found := false;
    var j := i;
    while j < |nodes|
      invariant i <= j <= |nodes|
      invariant More(nodes[j..], d) == More(nodes[i..], d)
    {
      if nodes[j].depth < d { return; }
      if nodes[j].depth == d { return true; }
      assert nodes[j..][1..] == nodes[j + 1..];
      j := j + 1;
    }
  }

  method Render(nodes: seq<Node>) returns (out: string)
    ensures out == Printed(nodes)
  {
    hide *;
    out := "";
    PrintedEmpty();
    for i := 0 to |nodes|
      invariant out + Printed(nodes[i..]) == Printed(nodes)
    {
      var line := RenderLine(nodes, i);
      PrintedFirst(nodes[i], nodes[i + 1..], nodes[i..]);
      assert out + (line + Printed(nodes[i + 1..])) == (out + line) + Printed(nodes[i + 1..]);
      out := out + line;
    }
    assert nodes[|nodes|..] == [];
  }

  method RenderLine(nodes: seq<Node>, i: nat) returns (line: string)
    requires i < |nodes|
    ensures line == Line(nodes[i], nodes[i + 1..])
  {
    var node := nodes[i];
    if node.depth == 0 {
      return "\U{1B}[1m" + node.text + "\U{1B}[0m\n";
    }
    var prefix := "";
    for d := 1 to node.depth
      invariant prefix == Prefix(nodes[i + 1..], d)
    {
      var hasMore := LookAhead(nodes, i + 1, d);
      prefix := prefix + (if hasMore then BAR else GAP);
    }
    var hasNext := LookAhead(nodes, i + 1, node.depth);
    return prefix + (if hasNext then TEE else LAST) + node.text + "\n";
  }

  lemma PrintedEmpty()
    ensures Printed([]) == ""
  {
  }

  lemma PrintedFirst(node: Node, after: seq<Node>, all: seq<Node>)
    requires all == [node] + after
    ensures Printed(all) == Line(node, after) + Printed(after)
  {
    assert all[1..] == after;
  }

  // ----- the recursive printer -----

  datatype Forest = Empty | Grow(text: string, children: Forest, siblings: Forest)

  /** The forest in preorder, its roots at depth `d`. */
  ghost function Flatten(f: Forest, d: nat): seq<Node> {
    match f
    case Empty => []
    case Grow(text, children, siblings) => [Node(text, d)] + Flatten(children, d + 1) + Flatten(siblings, d)
  }

  /** A printer that sees the tree: every line of a subtree carries the prefix of its parent's subtree. */
  ghost function Tree(f: Forest, prefix: string): string {
    match f
    case Empty => ""
    case Grow(text, children, siblings) =>
      prefix + (if siblings.Empty? then "\U{E2}\U{94}\U{94}\U{E2}\U{94}\U{80}\U{E2}\U{94}\U{80} "
                else "\U{E2}\U{94}\U{9C}\U{E2}\U{94}\U{80}\U{E2}\U{94}\U{80} ")
      + text + "\n"
      + Tree(children, prefix + (if siblings.Empty? then "    " else "\U{E2}\U{94}\U{82}   "))
      + Tree(siblings, prefix)
  }

  /** Roots are printed in bold, with their children as trees below. */
  ghost function Roots(f: Forest): string {
    match f
    case Empty => ""
    case Grow(text, children, siblings) => "\U{1B}[1m" + text + "\U{1B}[0m\n" + Tree(children, "") + Roots(siblings)
  }

  // ----- the look-ahead sees the tree -----

  ghost predicate Deeper(nodes: seq<Node>, d: nat) {
    forall k :: 0 <= k < |nodes| ==> nodes[k].depth >= d
  }

  lemma {:induction false} FlattenDeeper(f: Forest, d: nat)
    ensures Deeper(Flatten(f, d), d)
  {
    match f
    case Empty =>
    case Grow(text, children, siblings) =>
      FlattenDeeper(children, d + 1);
      FlattenDeeper(siblings, d);
  }

  /** Looking ahead passes over deeper nodes. */
  lemma {:induction false} MoreSkips(deep: seq<Node>, rest: seq<Node>, d: nat)
    requires Deeper(deep, d + 1)
    ensures More(deep + rest, d) == More(rest, d)
  {
    if deep == [] {
      assert deep + rest == rest;
    } else {
      assert (deep + rest)[1..] == deep[1..] + rest;
      MoreSkips(deep[1..], rest, d);
    }
  }

  lemma {:induction false} PrefixSkips(deep: seq<Node>, rest: seq<Node>, d: nat)
    requires Deeper(deep, d)
    ensures Prefix(deep + rest, d) == Prefix(rest, d)
  {
    if d > 1 {
      PrefixSkips(deep, rest, d - 1);
      MoreSkips(deep, rest, d - 1);
    }
  }

  /** The nodes after a subtree at depth `d` are all above it, up to the first. */
  ghost predicate Closes(rest: seq<Node>, d: nat) {
    rest == [] || rest[0].depth < d
  }

  lemma SiblingsAhead(siblings: Forest, rest: seq<Node>, d: nat)
    requires Closes(rest, d)
    ensures More(Flatten(siblings, d) + rest, d) == !siblings.Empty?
    ensures Closes(Flatten(siblings, d) + rest, d + 1)
  {
  }

  /** The first line of a tree, in place. */
  lemma FirstLine(text: string, children: Forest, siblings: Forest, d: nat, rest: seq<Node>)
    requires d >= 1 && Closes(rest, d)
    ensures var later := Flatten(siblings, d) + rest;
            && Line(Node(text, d), Flatten(children, d + 1) + later)
               == Prefix(rest, d) + (if siblings.Empty? then LAST else TEE) + text + "\n"
            && Prefix(later, d + 1) == Prefix(rest, d) + (if siblings.Empty? then GAP else BAR)
            && Closes(later, d + 1)
  {
    var later := Flatten(siblings, d) + rest;
    FlattenDeeper(children, d + 1);
    FlattenDeeper(siblings, d);
    SiblingsAhead(siblings, rest, d);
    hide Flatten, Closes;
    PrefixSkips(Flatten(children, d + 1), later, d);
    PrefixSkips(Flatten(siblings, d), rest, d);
    MoreSkips(Flatten(children, d + 1), later, d);
  }

  /** A forest below the root prints as a tree, whatever follows it. */
  lemma {:induction false} LookAheadPrintsTree(f: Forest, d: nat, rest: seq<Node>)
    requires d >= 1 && Closes(rest, d)
    ensures Printed(Flatten(f, d) + rest) == Tree(f, Prefix(rest, d)) + Printed(rest)
    decreases f
  {
    hide Prefix, Line, Printed, More, Closes;
    match f
    case Empty =>
      assert Flatten(f, d) + rest == rest;
    case Grow(text, children, siblings) =>
      var later := Flatten(siblings, d) + rest;
      FirstLine(text, children, siblings, d, rest);
      var line := Line(Node(text, d), Flatten(children, d + 1) + later);
      assert Flatten(f, d) + rest == [Node(text, d)] + (Flatten(children, d + 1) + later);
      PrintedFirst(Node(text, d), Flatten(children, d + 1) + later, Flatten(f, d) + rest);
      LookAheadPrintsTree(children, d + 1, later);
      LookAheadPrintsTree(siblings, d, rest);
      Associates(line, Tree(children, Prefix(later, d + 1)), Tree(siblings, Prefix(rest, d)), Printed(rest));
  }

  lemma RootLine(text: string, after: seq<Node>, tree: string, roots: string)
    ensures Line(Node(text, 0), after) + (tree + roots) == "\U{1B}[1m" + text + "\U{1B}[0m\n" + tree + roots
  {
  }

  lemma NoPrefix(after: seq<Node>)
    ensures Prefix(after, 1) == ""
  {
  }

  /** The look-ahead printer refines the recursive one, on every forest. */
  lemma {:induction false} LookAheadPrintsRoots(f: Forest)
    ensures Printed(Flatten(f, 0)) == Roots(f)
    decreases f
  {
    match f
    case Empty =>
    case Grow(text, children, siblings) =>
      hide Prefix, Printed, More, Line, Tree;
      var later := Flatten(siblings, 0);
      PrintedFirst(Node(text, 0), Flatten(children, 1) + later, Flatten(f, 0));
      NoPrefix(later);
      LookAheadPrintsTree(children, 1, later);
      LookAheadPrintsRoots(siblings);
      RootLine(text, Flatten(children, 1) + later, Tree(children, ""), Roots(siblings));
  }

  // ----- every outline is a forest -----

  /** The nodes at depth `d` or deeper at the front of the list, as a forest, and what is left. */
  ghost function Build(nodes: seq<Node>, d: nat): (r: (Forest, seq<Node>))
    ensures |r.1| <= |nodes|
    decreases |nodes|
  {
    if nodes == [] || nodes[0].depth < d then (Empty, nodes)
    else
      var (children, rest) := Build(nodes[1..], d + 1);
      var (siblings, left) := Build(rest, d);
      (Grow(nodes[0].text, children, siblings), left)
  }

  /** The list goes down one level at a time. */
  ghost predicate Stepwise(nodes: seq<Node>) {
    forall i :: 0 < i < |nodes| ==> nodes[i].depth <= nodes[i - 1].depth + 1
  }

  lemma StepwiseTail(nodes: seq<Node>)
    requires Stepwise(nodes) && nodes != []
    ensures Stepwise(nodes[1..]) && (|nodes| > 1 ==> nodes[1].depth <= nodes[0].depth + 1)
  {
    var tail := nodes[1..];
    forall i | 0 < i < |tail| ensures tail[i].depth <= tail[i - 1].depth + 1 {
      assert tail[i] == nodes[i + 1] && tail[i - 1] == nodes[(i + 1) - 1];
    }
    assert |nodes| > 1 ==> nodes[1].depth <= nodes[1 - 1].depth + 1;
  }

  lemma FlattenGrow(text: string, children: Forest, siblings: Forest, d: nat, left: seq<Node>)
    ensures Flatten(Grow(text, children, siblings), d) + left
            == [Node(text, d)] + (Flatten(children, d + 1) + (Flatten(siblings, d) + left))
  {
  }

  lemma NothingBuilt(nodes: seq<Node>, d: nat)
    ensures nodes == Flatten(Empty, d) + nodes
  {
    assert nodes == [] + nodes;
  }

  lemma {:induction false} BuildFlattens(nodes: seq<Node>, d: nat)
    requires Stepwise(nodes) && (nodes != [] ==> nodes[0].depth <= d)
    ensures var (f, rest) := Build(nodes, d);
            nodes == Flatten(f, d) + rest && Closes(rest, d) && Stepwise(rest)
    decreases |nodes|
  {
    hide Stepwise, Flatten;
    if nodes == [] || nodes[0].depth < d {
      NothingBuilt(nodes, d);
    } else {
      StepwiseTail(nodes);
      var (children, rest) := Build(nodes[1..], d + 1);
      var (siblings, left) := Build(rest, d);
      BuildFlattens(nodes[1..], d + 1);
      BuildFlattens(rest, d);
      FirstAndRest(nodes, d, children, siblings, rest, left);
    }
  }

  lemma FirstAndRest(nodes: seq<Node>, d: nat, children: Forest, siblings: Forest, rest: seq<Node>, left: seq<Node>)
    requires nodes != [] && nodes[0].depth == d
    requires nodes[1..] == Flatten(children, d + 1) + rest && rest == Flatten(siblings, d) + left
    ensures nodes == Flatten(Grow(nodes[0].text, children, siblings), d) + left
  {
    hide Flatten;
    FlattenGrow(nodes[0].text, children, siblings, d, left);
    assert nodes == [nodes[0]] + nodes[1..];
  }

  /** On every list that starts at depth 0 and goes down one level at a time, the look-ahead printer prints the
      tree the list describes. */
  lemma OutlinePrintsAsTree(nodes: seq<Node>) returns (f: Forest)
    requires Stepwise(nodes) && (nodes != [] ==> nodes[0].depth == 0)
    ensures nodes == Flatten(f, 0) && Printed(nodes) == Roots(f)
  {
    BuildFlattens(nodes, 0);
    f := Build(nodes, 0).0;
    assert Flatten(f, 0) + [] == Flatten(f, 0);
    LookAheadPrintsRoots(f);
  }
}
