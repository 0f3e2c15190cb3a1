/** Where `render_td` and `render_lr` (src/tui/mermaid/mermaid.cpp) put the nodes: the order inside a layer
    and the row by row, column by column search for the node of a cell. */
module Placement {
  import opened FlowGraph

  /** The number of nodes before index `k` in the given layer. */
  ghost function InLayer(nodes: seq<Node>, layer: int, k: nat): nat
    requires k <= |nodes|
  {
    if k == 0 then 0 else InLayer(nodes, layer, k - 1) + (if nodes[k - 1].layer == layer then 1 else 0)
  }

  /** `order` numbers the nodes of each layer from 0, in index order; `sizes` counts the layers. */
  ghost predicate Placed(nodes: seq<Node>, sizes: seq<int>) {
    && (forall i :: 0 <= i < |nodes| ==> 0 <= nodes[i].layer < |sizes|)
    && (forall i :: 0 <= i < |nodes| ==> nodes[i].order == InLayer(nodes, nodes[i].layer, i))
    && (forall l :: 0 <= l < |sizes| ==> sizes[l] == InLayer(nodes, l, |nodes|))
  }

  lemma {:induction false} InLayerMonotone(nodes: seq<Node>, layer: int, k: nat, m: nat)
    requires k <= m <= |nodes|
    ensures InLayer(nodes, layer, k) <= InLayer(nodes, layer, m)
    decreases m
  {
    if k < m {
      InLayerMonotone(nodes, layer, k, m - 1);
    }
  }

  lemma {:induction false} InLayerIgnoresOrder(a: seq<Node>, b: seq<Node>, layer: int, k: nat)
    requires k <= |a| == |b| && forall i :: 0 <= i < k ==> a[i].layer == b[i].layer
    ensures InLayer(a, layer, k) == InLayer(b, layer, k)
  {
    if k > 0 {
      InLayerIgnoresOrder(a, b, layer, k - 1);
    }
  }

  /** `order` assignment of both renderers. Every layer the layout computed is a valid index of `sizes`. */
  method AssignOrder(nodes: seq<Node>, maxLayer: nat) returns (placed: seq<Node>, sizes: seq<int>)
    requires forall i :: 0 <= i < |nodes| ==> 0 <= nodes[i].layer <= maxLayer
    ensures |placed| == |nodes| && |sizes| == maxLayer + 1 && Placed(placed, sizes)
    ensures forall i :: 0 <= i < |nodes| ==> placed[i] == nodes[i].(order := placed[i].order)
  {
    hide Placed;
    sizes := seq(maxLayer + 1, _ => 0);
    placed := nodes;
    for i := 0 to |nodes|
      invariant |placed| == |nodes| && |sizes| == maxLayer + 1
      invariant forall k :: 0 <= k < |nodes| ==> placed[k] == nodes[k].(order := placed[k].order)
      invariant forall k :: 0 <= k < i ==> placed[k].order == InLayer(nodes, nodes[k].layer, k)
      invariant forall l :: 0 <= l < |sizes| ==> sizes[l] == InLayer(nodes, l, i)
    {
      var layer := nodes[i].layer;
      placed := placed[i := placed[i].(order := sizes[layer])];
      sizes := sizes[layer := sizes[layer] + 1];
    }
    OrderIsPlaced(nodes, placed, sizes);
  }

  lemma OrderIsPlaced(nodes: seq<Node>, placed: seq<Node>, sizes: seq<int>)
    requires |placed| == |nodes| && forall k :: 0 <= k < |nodes| ==> placed[k] == nodes[k].(order := placed[k].order)
    requires forall k :: 0 <= k < |nodes| ==> 0 <= nodes[k].layer < |sizes|
    requires forall k :: 0 <= k < |nodes| ==> placed[k].order == InLayer(nodes, nodes[k].layer, k)
    requires forall l :: 0 <= l < |sizes| ==> sizes[l] == InLayer(nodes, l, |nodes|)
    ensures Placed(placed, sizes)
  {
    hide InLayer;
    forall l: int, k: nat | k <= |nodes| ensures InLayer(placed, l, k) == InLayer(nodes, l, k) {
      InLayerIgnoresOrder(placed, nodes, l, k);
    }
  }

  /** No two nodes share a cell, and every node's row exists in its layer. */
  lemma CellsAreDistinct(nodes: seq<Node>, sizes: seq<int>, i: nat, j: nat)
    requires Placed(nodes, sizes) && i < |nodes| && j < |nodes|
    ensures 0 <= nodes[i].order < sizes[nodes[i].layer]
    ensures nodes[i].layer == nodes[j].layer && nodes[i].order == nodes[j].order ==> i == j
  {
    hide InLayer;
    var l := nodes[i].layer;
    InLayerNext(nodes, l, i);
    InLayerMonotone(nodes, l, i + 1, |nodes|);
    if i < j {
      InLayerMonotone(nodes, l, i + 1, j);
    } else if j < i {
      InLayerNext(nodes, l, j);
      InLayerMonotone(nodes, l, j + 1, i);
    }
  }

  lemma InLayerNext(nodes: seq<Node>, layer: int, k: nat)
    requires k < |nodes|
    ensures InLayer(nodes, layer, k + 1) == InLayer(nodes, layer, k) + (if nodes[k].layer == layer then 1 else 0)
  {
  }

  /** Every row below the size of a layer is taken. */
  lemma {:induction false} RowIsTaken(nodes: seq<Node>, sizes: seq<int>, layer: nat, row: nat, k: nat) returns (i: nat)
    requires Placed(nodes, sizes) && layer < |sizes| && k <= |nodes| && row < InLayer(nodes, layer, k)
    ensures i < k && nodes[i].layer == layer && nodes[i].order == row
    decreases k
  {
    if row < InLayer(nodes, layer, k - 1) {
      i := RowIsTaken(nodes, sizes, layer, row, k - 1);
    } else {
      i := k - 1;
    }
  }

  /** The cell search of `render_lr`. */
  method FindCell(nodes: seq<Node>, sizes: seq<int>, layer: nat, row: nat) returns (ni: int)
    requires Placed(nodes, sizes) && layer < |sizes|
    ensures row < sizes[layer] ==> 0 <= ni < |nodes| && nodes[ni].layer == layer && nodes[ni].order == row
    ensures row >= sizes[layer] ==> ni == -1
  {
    ni := -1;
    for i := 0 to |nodes|
      invariant forall k :: 0 <= k < i ==> !(nodes[k].layer == layer && nodes[k].order == row)
    {
      if nodes[i].layer == layer && nodes[i].order == row {
        CellsAreDistinct(nodes, sizes, i, i);
        ni := i;
        return;
      }
    }
    if row < sizes[layer] {
      var i := RowIsTaken(nodes, sizes, layer, row, |nodes|);
    }
  }

  method MaxSize(sizes: seq<int>) returns (m: int)
    requires sizes != []
    ensures m in sizes && forall l :: 0 <= l < |sizes| ==> sizes[l] <= m
  {
    m := sizes[0];
    for l := 1 to |sizes|
      invariant m in sizes && forall k :: 0 <= k < l ==> sizes[k] <= m
    {
      if sizes[l] > m { m := sizes[l]; }
    }
  }

  /** The nodes drawn by `render_lr`, in drawing order: every node exactly once. */
  method DrawLeftToRight(nodes: seq<Node>, sizes: seq<int>) returns (drawn: seq<int>)
    requires Placed(nodes, sizes) && sizes != []
    ensures forall a, b :: 0 <= a < b < |drawn| ==> drawn[a] != drawn[b]
    ensures forall i :: i in drawn <==> 0 <= i < |nodes|
  {
    hide *;
    var rows := MaxSize(sizes);
    drawn := [];
    NothingDrawn(nodes, sizes);
    var row := 0;
    while row < rows
      invariant 0 <= row && (row <= rows || row == 0)
      invariant Drawn(nodes, drawn, row, 0)
    {
      for layer := 0 to |sizes|
        invariant Drawn(nodes, drawn, row, layer)
      {
        var ni := FindCell(nodes, sizes, layer, row);
        CellDrawn(nodes, sizes, drawn, row, layer, ni);
        if ni >= 0 {
          drawn := drawn + [ni];
        }
      }
      RowDrawn(nodes, sizes, drawn, row);
      row := row + 1;
    }
    AllDrawn(nodes, sizes, drawn, row);
  }

  /** The nodes in the rows before `row`, and in `row` in the layers before `layer`, have been drawn once each. */
  ghost predicate Drawn(nodes: seq<Node>, drawn: seq<int>, row: nat, layer: nat) {
    && (forall i :: i in drawn <==>
          0 <= i < |nodes| && (nodes[i].order < row || (nodes[i].order == row && nodes[i].layer < layer)))
    && (forall a, b :: 0 <= a < b < |drawn| ==> drawn[a] != drawn[b])
  }

  lemma NothingDrawn(nodes: seq<Node>, sizes: seq<int>)
    requires Placed(nodes, sizes)
    ensures Drawn(nodes, [], 0, 0)
  {
    hide Placed;
    forall i: nat | i < |nodes| ensures nodes[i].order >= 0 && nodes[i].layer >= 0 {
      InCell(nodes, sizes, i);
    }
  }

  lemma InCell(nodes: seq<Node>, sizes: seq<int>, i: nat)
    requires Placed(nodes, sizes) && i < |nodes|
    ensures 0 <= nodes[i].layer < |sizes| && 0 <= nodes[i].order < sizes[nodes[i].layer]
  {
    CellsAreDistinct(nodes, sizes, i, i);
  }

  lemma CellDrawn(nodes: seq<Node>, sizes: seq<int>, drawn: seq<int>, row: nat, layer: nat, ni: int)
    requires Placed(nodes, sizes) && Drawn(nodes, drawn, row, layer) && layer < |sizes|
    requires row < sizes[layer] ==> 0 <= ni < |nodes| && nodes[ni].layer == layer && nodes[ni].order == row
    requires row >= sizes[layer] ==> ni == -1
    ensures Drawn(nodes, if ni >= 0 then drawn + [ni] else drawn, row, layer + 1)
  {
    hide Placed;
    forall i: nat | i < |nodes| && nodes[i].layer == layer && nodes[i].order == row ensures i == ni {
      InCell(nodes, sizes, i);
      CellsAreDistinct(nodes, sizes, i, ni);
    }
  }

  lemma RowDrawn(nodes: seq<Node>, sizes: seq<int>, drawn: seq<int>, row: nat)
    requires Placed(nodes, sizes) && Drawn(nodes, drawn, row, |sizes|)
    ensures Drawn(nodes, drawn, row + 1, 0)
  {
    hide Placed;
    forall i: nat | i < |nodes| ensures 0 <= nodes[i].layer < |sizes| {
      InCell(nodes, sizes, i);
    }
  }

  lemma AllDrawn(nodes: seq<Node>, sizes: seq<int>, drawn: seq<int>, row: nat)
    requires Placed(nodes, sizes) && sizes != [] && Drawn(nodes, drawn, row, 0)
    requires forall l :: 0 <= l < |sizes| ==> sizes[l] <= row
    ensures forall a, b :: 0 <= a < b < |drawn| ==> drawn[a] != drawn[b]
    ensures forall i :: i in drawn <==> 0 <= i < |nodes|
  {
    hide Placed;
    forall i: nat | i < |nodes| ensures nodes[i].order < row {
      InCell(nodes, sizes, i);
    }
  }

  /** The nodes `render_td` collects for one layer; sorting them by order changes nothing. */
  method CollectLayer(nodes: seq<Node>, sizes: seq<int>, layer: nat) returns (found: seq<int>)
    requires Placed(nodes, sizes) && layer < |sizes|
    ensures |found| == sizes[layer]
    ensures forall r :: 0 <= r < |found| ==>
              0 <= found[r] < |nodes| && nodes[found[r]].layer == layer && nodes[found[r]].order == r
  {
    found := [];
    for i := 0 to |nodes|
      invariant |found| == InLayer(nodes, layer, i)
      invariant forall r :: 0 <= r < |found| ==>
        0 <= found[r] < |nodes| && nodes[found[r]].layer == layer && nodes[found[r]].order == r
    {
      if nodes[i].layer == layer {
        found := found + [i];
      }
    }
  }
}
