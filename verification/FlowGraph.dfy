/** The flowchart graph of src/tui/mermaid/mermaid.cpp: node lookup, layer assignment by Kahn's algorithm,
    and the placement of the nodes inside their layers. */
module FlowGraph {
  import opened Walks

  datatype Node = Node(id: string, caption: string, layer: int, order: int)

  function LayersOf(nodes: seq<Node>): (r: seq<int>)
    ensures |r| == |nodes|
  {
    seq(|nodes|, i requires 0 <= i < |nodes| => nodes[i].layer)
  }

  // ----- pending in-edges -----

  /** The in-edges of `v` among the first `k` edges that are not in `done`. */
  ghost function Pending(edges: seq<Edge>, done: set<nat>, v: nat, k: nat): nat
    requires k <= |edges|
  {
    if k == 0 then 0
    else Pending(edges, done, v, k - 1) + (if edges[k - 1].to == v && (k - 1) !in done then 1 else 0)
  }

  lemma {:induction false} PendingStep(edges: seq<Edge>, done: set<nat>, v: nat, k: nat, e: nat)
    requires k <= |edges| && e < |edges| && e !in done
    ensures Pending(edges, done, v, k)
            == Pending(edges, done + {e}, v, k) + (if e < k && edges[e].to == v then 1 else 0)
  {
    if k > 0 {
      PendingStep(edges, done, v, k - 1, e);
    }
  }

  lemma {:induction false} PendingZero(edges: seq<Edge>, done: set<nat>, v: nat, k: nat)
    requires k <= |edges|
    ensures Pending(edges, done, v, k) == 0 <==> forall j :: 0 <= j < k && edges[j].to == v ==> j in done
  {
    if k > 0 {
      PendingZero(edges, done, v, k - 1);
    }
  }

  // ----- the invariant of Kahn's algorithm -----

  /** The queue: distinct nodes, exactly those with no pending in-edge, each after its predecessors. */
  ghost predicate QueueInv(n: nat, edges: seq<Edge>, done: set<nat>, inDeg: seq<int>, queue: seq<nat>) {
    && |inDeg| == n
    && Distinct(queue)
    && (forall v :: v in queue ==> v < n)
    && (forall v :: 0 <= v < n ==> inDeg[v] == Pending(edges, done, v, |edges|))
    && (forall v :: 0 <= v < n ==> (v in queue <==> inDeg[v] == 0))
    && (forall j :: j in done ==> j < |edges| && edges[j].from in queue)
    && (forall j, b :: 0 <= j < |edges| && 0 <= b < |queue| && edges[j].to == queue[b] ==> edges[j].from in queue[..b])
  }

  /** The layers: one more than the largest layer among the sources of the edges done so far. */
  ghost predicate LayerInv(n: nat, edges: seq<Edge>, done: set<nat>, layers: seq<int>, maxLayer: int)
    requires InRange(n, edges)
  {
    && |layers| == n
    && (forall j :: j in done ==> j < |edges|)
    && (forall j :: j in done ==> layers[edges[j].to] >= layers[edges[j].from] + 1)
    && (forall v :: 0 <= v < n ==> layers[v] == 0 || LayerCause(edges, done, layers, v))
    && (forall v :: 0 <= v < n ==> 0 <= layers[v] <= maxLayer)
    && (maxLayer == 0 || maxLayer in layers)
  }

  ghost predicate LayerCause(edges: seq<Edge>, done: set<nat>, layers: seq<int>, v: nat)
    requires InRange(|layers|, edges) && v < |layers|
  {
    exists j :: j in done && j < |edges| && edges[j].to == v && layers[v] == layers[edges[j].from] + 1
  }

  /** A node with an in-edge still pending has not been queued. */
  lemma PendingNotQueued(n: nat, edges: seq<Edge>, done: set<nat>, inDeg: seq<int>, queue: seq<nat>, e: nat)
    requires InRange(n, edges) && QueueInv(n, edges, done, inDeg, queue) && e < |edges| && e !in done
    ensures edges[e].to !in queue && inDeg[edges[e].to] > 0
  {
    PendingZero(edges, done, edges[e].to, |edges|);
  }

  lemma RelaxQueue(n: nat, edges: seq<Edge>, done: set<nat>, inDeg: seq<int>, queue: seq<nat>, e: nat,
                   inDeg': seq<int>, queue': seq<nat>)
    requires InRange(n, edges) && QueueInv(n, edges, done, inDeg, queue)
    requires e < |edges| && e !in done && edges[e].from in queue
    requires var to := edges[e].to;
             && inDeg' == inDeg[to := inDeg[to] - 1]
             && queue' == if inDeg'[to] == 0 then queue + [to] else queue
    ensures QueueInv(n, edges, done + {e}, inDeg', queue')
  {
    var to, done' := edges[e].to, done + {e};
    PendingNotQueued(n, edges, done, inDeg, queue, e);
    forall v | 0 <= v < n ensures inDeg'[v] == Pending(edges, done', v, |edges|) {
      PendingStep(edges, done, v, |edges|, e);
    }
    PendingZero(edges, done', to, |edges|);
    forall j, b | 0 <= j < |edges| && 0 <= b < |queue'| && edges[j].to == queue'[b]
      ensures edges[j].from in queue'[..b]
    {
      if b < |queue| {
        assert queue'[..b] == queue[..b];
      } else {
        assert queue'[..b] == queue;
      }
    }
  }

  lemma {:induction false} RelaxLayers(n: nat, edges: seq<Edge>, done: set<nat>, layers: seq<int>, maxLayer: int,
                                       e: nat, layers': seq<int>, maxLayer': int)
    requires InRange(n, edges) && LayerInv(n, edges, done, layers, maxLayer)
    requires e < |edges| && edges[e].from != edges[e].to
    requires forall j :: j in done ==> j < |edges| && edges[j].from != edges[e].to
    requires var to, new_ := edges[e].to, layers[edges[e].from] + 1;
             && layers' == (if new_ > layers[to] then layers[to := new_] else layers)
             && maxLayer' == (if new_ > maxLayer then new_ else maxLayer)
    ensures LayerInv(n, edges, done + {e}, layers', maxLayer')
  {
    hide LayerCause;
    CausesKept(n, edges, done, layers, e, layers');
    if maxLayer' != 0 {
      var v := if maxLayer' == maxLayer then var v :| 0 <= v < n && layers[v] == maxLayer; v else edges[e].to;
      assert layers'[v] == maxLayer';
    }
  }

  lemma CausesKept(n: nat, edges: seq<Edge>, done: set<nat>, layers: seq<int>, e: nat, layers': seq<int>)
    requires InRange(n, edges) && |layers| == n == |layers'| && e < |edges|
    requires edges[e].from != edges[e].to && forall j :: j in done ==> j < |edges| && edges[j].from != edges[e].to
    requires forall v :: 0 <= v < n ==> layers[v] == 0 || LayerCause(edges, done, layers, v)
    requires layers' == layers[edges[e].to := layers[edges[e].from] + 1] || layers' == layers
    ensures forall v :: 0 <= v < n ==> layers'[v] == 0 || LayerCause(edges, done + {e}, layers', v)
  {
    forall v | 0 <= v < n ensures layers'[v] == 0 || LayerCause(edges, done + {e}, layers', v) {
      CauseKept(n, edges, done, layers, e, layers', v);
    }
  }

  lemma CauseKept(n: nat, edges: seq<Edge>, done: set<nat>, layers: seq<int>, e: nat, layers': seq<int>, v: nat)
    requires InRange(n, edges) && |layers| == n == |layers'| && e < |edges| && v < n
    requires edges[e].from != edges[e].to && forall j :: j in done ==> j < |edges| && edges[j].from != edges[e].to
    requires layers[v] == 0 || LayerCause(edges, done, layers, v)
    requires layers' == layers[edges[e].to := layers[edges[e].from] + 1] || layers' == layers
    ensures layers'[v] == 0 || LayerCause(edges, done + {e}, layers', v)
  {
    if layers'[v] != layers[v] {
      assert v == edges[e].to && e in done + {e};
    } else if layers[v] != 0 {
      var j :| j in done && j < |edges| && edges[j].to == v && layers[v] == layers[edges[j].from] + 1;
      assert j in done + {e} && layers'[edges[j].from] == layers[edges[j].from];
    }
  }

  // ----- the finished layering -----

  /** What the queue and the layers satisfy when the queue is exhausted. */
  ghost predicate Layered(n: nat, edges: seq<Edge>, queue: seq<nat>, layers: seq<int>)
    requires InRange(n, edges)
  {
    && |layers| == n && Distinct(queue)
    && (forall v :: v in queue ==> v < n)
    && (forall v :: 0 <= v < n && v !in queue ==> exists u :: HasEdge(edges, u, v) && u !in queue)
    && (forall j, b :: 0 <= j < |edges| && 0 <= b < |queue| && edges[j].to == queue[b] ==> edges[j].from in queue[..b])
    && (forall j :: 0 <= j < |edges| && edges[j].from in queue ==> layers[edges[j].to] >= layers[edges[j].from] + 1)
    && (forall v :: 0 <= v < n ==> layers[v] == 0 || QueuedCause(edges, queue, layers, v))
    && (forall v :: 0 <= v < n ==> layers[v] >= 0)
  }

  ghost predicate QueuedCause(edges: seq<Edge>, queue: seq<nat>, layers: seq<int>, v: nat)
    requires InRange(|layers|, edges) && v < |layers|
  {
    exists u :: u in queue && u < |layers| && HasEdge(edges, u, v) && layers[v] == layers[u] + 1
  }

  lemma FinishedIsLayered(n: nat, edges: seq<Edge>, done: set<nat>, inDeg: seq<int>, queue: seq<nat>,
                          layers: seq<int>, maxLayer: int)
    requires InRange(n, edges) && QueueInv(n, edges, done, inDeg, queue) && LayerInv(n, edges, done, layers, maxLayer)
    requires forall j :: 0 <= j < |edges| ==> (j in done <==> edges[j].from in queue)
    ensures Layered(n, edges, queue, layers)
  {
    forall v | 0 <= v < n && v !in queue ensures exists u :: HasEdge(edges, u, v) && u !in queue {
      PendingZero(edges, done, v, |edges|);
      var j :| 0 <= j < |edges| && edges[j].to == v && j !in done;
      assert HasEdge(edges, edges[j].from, v);
    }
    forall v | 0 <= v < n && layers[v] != 0 ensures QueuedCause(edges, queue, layers, v) {
      assert LayerCause(edges, done, layers, v);
      var j :| j in done && j < |edges| && edges[j].to == v && layers[v] == layers[edges[j].from] + 1;
      assert HasEdge(edges, edges[j].from, v);
    }
  }

  /** Every node of a walk to a queued node was queued before it. */
  lemma {:induction false} WalkBackInQueue(n: nat, edges: seq<Edge>, queue: seq<nat>, layers: seq<int>,
                                           p: seq<nat>, b: nat, t: nat)
    requires InRange(n, edges) && Layered(n, edges, queue, layers)
    requires b < |queue| && WalkTo(edges, p, queue[b]) && t < |p| - 1
    ensures p[t] in queue[..b]
    decreases |p|
  {
    var u := p[|p| - 2];
    assert HasEdge(edges, p[|p| - 2], p[|p| - 2 + 1]);
    assert u in queue[..b];
    if t < |p| - 2 {
      var c :| 0 <= c < b && queue[c] == u;
      WalkPrefix(edges, p, queue[b], |p| - 2);
      WalkBackInQueue(n, edges, queue, layers, p[..|p| - 1], c, t);
      assert p[..|p| - 1][t] == p[t];
      assert queue[..c] <= queue[..b];
    }
  }

  /** A cycle cannot be above a queued node. */
  lemma QueuedIsNotBelowCycle(n: nat, edges: seq<Edge>, queue: seq<nat>, layers: seq<int>, v: nat)
    requires InRange(n, edges) && Layered(n, edges, queue, layers) && v in queue
    ensures !BelowCycle(edges, v)
  {
    if BelowCycle(edges, v) {
      var p: seq<nat>, k :| WalkTo(edges, p, v) && 0 < k < |p| && p[0] == p[k];
      var b :| 0 <= b < |queue| && queue[b] == v;
      if k < |p| - 1 {
        WalkBackInQueue(n, edges, queue, layers, p, b, k);
      }
      var c :| 0 <= c < |queue| && queue[c] == p[k];
      WalkPrefix(edges, p, v, k);
      WalkBackInQueue(n, edges, queue, layers, p[..k + 1], c, 0);
      assert false;
    }
  }

  lemma UnqueuedPredecessor(n: nat, edges: seq<Edge>, queue: seq<nat>, layers: seq<int>, v: nat) returns (u: nat)
    requires InRange(n, edges) && Layered(n, edges, queue, layers) && v < n && v !in queue
    ensures HasEdge(edges, u, v) && u < n && u !in queue
  {
    u :| HasEdge(edges, u, v) && u !in queue;
  }

  /** From a node that is not queued one can walk back through such nodes for ever. */
  lemma {:induction false} WalkBackUnqueued(n: nat, edges: seq<Edge>, queue: seq<nat>, layers: seq<int>, v: nat, m: nat)
    returns (p: seq<nat>)
    requires InRange(n, edges) && Layered(n, edges, queue, layers) && v < n && v !in queue
    ensures WalkTo(edges, p, v) && |p| == m + 1
    ensures forall x :: x in p ==> x < n && x !in queue
    decreases m
  {
    hide *;
    if m == 0 {
      TrivialWalk(edges, v);
      p := [v];
    } else {
      var u := UnqueuedPredecessor(n, edges, queue, layers, v);
      var q := WalkBackUnqueued(n, edges, queue, layers, u, m - 1);
      WalkExtend(edges, q, u, v);
      p := q + [v];
    }
  }

  lemma UnqueuedIsBelowCycle(n: nat, edges: seq<Edge>, queue: seq<nat>, layers: seq<int>, v: nat)
    requires InRange(n, edges) && Layered(n, edges, queue, layers) && v < n && v !in queue
    ensures BelowCycle(edges, v)
  {
    hide Layered;
    var p := WalkBackUnqueued(n, edges, queue, layers, v, n);
    if Distinct(p) {
      DistinctFits(p, n);
    } else {
      var i, j :| 0 <= i < j < |p| && p[i] == p[j];
      WalkPrefix(edges, p, v, i);
      assert p[i..][0] == p[i..][j - i];
    }
  }

  /** Kahn's queue holds exactly the nodes that no cycle reaches. */
  lemma QueuedIffNotBelowCycle(n: nat, edges: seq<Edge>, queue: seq<nat>, layers: seq<int>)
    requires InRange(n, edges) && Layered(n, edges, queue, layers)
    ensures forall v :: 0 <= v < n ==> (v in queue <==> !BelowCycle(edges, v))
  {
    forall v | 0 <= v < n ensures v in queue <==> !BelowCycle(edges, v) {
      if v in queue {
        QueuedIsNotBelowCycle(n, edges, queue, layers, v);
      } else {
        UnqueuedIsBelowCycle(n, edges, queue, layers, v);
      }
    }
  }

  lemma {:induction false} LayerIsUpperBound(n: nat, edges: seq<Edge>, queue: seq<nat>, layers: seq<int>,
                                             p: seq<nat>, v: nat)
    requires InRange(n, edges) && Layered(n, edges, queue, layers) && v < n && WalkTo(edges, p, v)
    requires forall k :: 0 <= k < |p| - 1 ==> p[k] in queue
    ensures |p| - 1 <= layers[v]
    decreases |p|
  {
    if |p| > 1 {
      var u := p[|p| - 2];
      assert HasEdge(edges, p[|p| - 2], p[|p| - 2 + 1]) && u in queue;
      WalkPrefix(edges, p, v, |p| - 2);
      LayerIsUpperBound(n, edges, queue, layers, p[..|p| - 1], u);
    }
  }

  lemma LayersTotal(n: nat, edges: seq<Edge>, queue: seq<nat>, layers: seq<int>)
    requires InRange(n, edges) && Layered(n, edges, queue, layers)
    ensures |layers| == n
  {
  }

  lemma LayerStepBack(n: nat, edges: seq<Edge>, queue: seq<nat>, layers: seq<int>, v: nat) returns (u: nat)
    requires InRange(n, edges) && Layered(n, edges, queue, layers) && v < n && layers[v] != 0
    ensures u in queue && u < n == |layers| && HasEdge(edges, u, v) && layers[v] == layers[u] + 1 && layers[u] >= 0
  {
    assert QueuedCause(edges, queue, layers, v);
    u :| u in queue && u < |layers| && HasEdge(edges, u, v) && layers[v] == layers[u] + 1;
  }

  lemma {:induction false} LayerIsReached(n: nat, edges: seq<Edge>, queue: seq<nat>, layers: seq<int>, v: nat)
    returns (p: seq<nat>)
    requires InRange(n, edges) && Layered(n, edges, queue, layers) && v < n
    ensures |layers| == n && WalkTo(edges, p, v) && |p| - 1 == layers[v]
    ensures forall k :: 0 <= k < |p| - 1 ==> p[k] in queue
    decreases layers[v]
  {
    hide *;
    LayersTotal(n, edges, queue, layers);
    if layers[v] == 0 {
      TrivialWalk(edges, v);
      p := [v];
    } else {
      var u := LayerStepBack(n, edges, queue, layers, v);
      var q := LayerIsReached(n, edges, queue, layers, u);
      WalkExtend(edges, q, u, v);
      p := q + [v];
      forall k | 0 <= k < |p| - 1 ensures p[k] in queue {
        WalkEnds(edges, q, u);
        assert p[k] == q[k];
      }
    }
  }

  /** Every node's layer is the length of a longest walk to it that avoids the nodes below cycles. */
  lemma LayersAreLongestWalks(n: nat, edges: seq<Edge>, queue: seq<nat>, layers: seq<int>)
    requires InRange(n, edges) && Layered(n, edges, queue, layers)
    ensures forall v :: 0 <= v < n ==> LongestAcyclicWalk(edges, v, layers[v])
  {
    QueuedIffNotBelowCycle(n, edges, queue, layers);
    forall v | 0 <= v < n ensures LongestAcyclicWalk(edges, v, layers[v]) {
      var w := LayerIsReached(n, edges, queue, layers, v);
      assert AcyclicWalkTo(edges, w, v);
      forall p | AcyclicWalkTo(edges, p, v) ensures |p| - 1 <= layers[v] {
        forall k | 0 <= k < |p| - 1 ensures p[k] in queue {
          assert HasEdge(edges, p[k], p[k + 1]);
        }
        LayerIsUpperBound(n, edges, queue, layers, p, v);
      }
    }
  }

  // ----- the graph object -----

  /** Two node lists that differ at most in the layers. */
  ghost predicate SameButLayers(a: seq<Node>, b: seq<Node>) {
    |a| == |b| && forall i :: 0 <= i < |a| ==> a[i].(layer := 0) == b[i].(layer := 0)
  }

  lemma SetLayer(nodes: seq<Node>, i: nat, layer: int)
    requires i < |nodes|
    ensures LayersOf(nodes[i := nodes[i].(layer := layer)]) == LayersOf(nodes)[i := layer]
    ensures forall was :: SameButLayers(was, nodes) ==> SameButLayers(was, nodes[i := nodes[i].(layer := layer)])
  {
    var nodes' := nodes[i := nodes[i].(layer := layer)];
    forall was | SameButLayers(was, nodes) ensures SameButLayers(was, nodes') {
      assert forall k :: 0 <= k < |nodes| ==> nodes'[k].(layer := 0) == nodes[k].(layer := 0);
    }
  }

  /** The least index at or after `i` of a node named `id`, or -1. */
  function IndexOf(nodes: seq<Node>, id: string, i: nat): (r: int)
    requires i <= |nodes|
    ensures -1 <= r < |nodes|
    ensures r >= 0 ==> i <= r && nodes[r].id == id
    ensures forall k :: i <= k < |nodes| && (r == -1 || k < r) ==> nodes[k].id != id
    decreases |nodes| - i
  {
    if i == |nodes| then -1 else if nodes[i].id == id then i else IndexOf(nodes, id, i + 1)
  }

  function WithNode(nodes: seq<Node>, id: string): seq<Node> {
    if IndexOf(nodes, id, 0) >= 0 then nodes else nodes + [Node(id, id, 0, 0)]
  }

  lemma WithNodeFinds(nodes: seq<Node>, id: string)
    ensures IndexOf(WithNode(nodes, id), id, 0) == if IndexOf(nodes, id, 0) >= 0 then IndexOf(nodes, id, 0) else |nodes|
  {
    var r := IndexOf(WithNode(nodes, id), id, 0);
    if IndexOf(nodes, id, 0) < 0 {
      assert WithNode(nodes, id)[|nodes|].id == id;
    }
  }

  class Graph {
    var nodes: seq<Node>
    var edges: seq<Edge>

    ghost predicate Valid()
      reads this
    {
      InRange(|nodes|, edges) && forall i, j :: 0 <= i < j < |nodes| ==> nodes[i].id != nodes[j].id
    }

    constructor ()
      ensures Valid() && nodes == [] && edges == []
    {
      nodes, edges := [], [];
    }

    method FindNode(id: string) returns (idx: int)
      ensures idx == IndexOf(nodes, id, 0)
    {
      for i := 0 to |nodes|
        invariant IndexOf(nodes, id, i) == IndexOf(nodes, id, 0)
      {
        if nodes[i].id == id { return i; }
      }
      return -1;
    }

    /** The index of the node named `id`, which is appended when there is none. */
    method GetOrAdd(id: string) returns (idx: nat)
      requires Valid()
      modifies this`nodes
      ensures Valid() && nodes == WithNode(old(nodes), id) && idx == IndexOf(nodes, id, 0)
    {
      var found := FindNode(id);
      if found >= 0 { return found; }
      WithNodeFinds(nodes, id);
      nodes := nodes + [Node(id, id, 0, 0)];
      return |nodes| - 1;
    }

    /** Kahn's algorithm. A node is queued once if no cycle reaches it, and otherwise not at all. Afterwards every
        node's layer is the length of a longest walk to it that avoids the nodes below cycles: of a longest walk
        outright, when no cycle reaches the node. */
    method AssignLayers() returns (maxLayer: int, ghost queue: seq<nat>)
      requires Valid() && forall i :: 0 <= i < |nodes| ==> nodes[i].layer == 0
      modifies this`nodes
      ensures Valid() && SameButLayers(old(nodes), nodes)
      ensures Distinct(queue) && forall v :: 0 <= v < |nodes| ==> (v in queue <==> !BelowCycle(edges, v))
      ensures forall v :: 0 <= v < |nodes| ==> LongestAcyclicWalk(edges, v, nodes[v].layer)
      ensures forall v :: 0 <= v < |nodes| && !BelowCycle(edges, v) ==> LongestWalk(edges, v, nodes[v].layer)
      ensures forall v :: 0 <= v < |nodes| ==> 0 <= nodes[v].layer <= maxLayer
      ensures maxLayer == 0 || exists v :: 0 <= v < |nodes| && nodes[v].layer == maxLayer
    {
      hide KahnInv, LongestAcyclicWalk, LongestWalk, BelowCycle, SameButLayers, LayersOf, Distinct;
      ghost var was := nodes;
      var n := |nodes|;
      var inDeg := CountInDegrees(n, edges);
      var waiting: seq<nat> := StartQueue(n, edges, inDeg);
      StartIsInv(n, edges, inDeg, waiting, nodes);
      ghost var done: set<nat> := {};
      maxLayer := 0;
      var qi := 0;
      while qi < |waiting|
        invariant KahnInv(n, edges, done, was, nodes, inDeg, waiting, maxLayer)
        invariant qi <= |waiting| <= n
        invariant forall j :: 0 <= j < |edges| ==> (j in done <==> edges[j].from in waiting[..qi])
        decreases n - qi
      {
        var cur := waiting[qi];
        ghost var before := waiting[..qi];
        CurIsNew(n, edges, done, was, nodes, inDeg, waiting, maxLayer, qi);
        for k := 0 to |edges|
          invariant KahnInv(n, edges, done, was, nodes, inDeg, waiting, maxLayer)
          invariant qi < |waiting| && waiting[..qi] == before && waiting[qi] == cur
          invariant forall j :: 0 <= j < |edges| ==>
                    (j in done <==> edges[j].from in before || (edges[j].from == cur && j < k))
        {
          if edges[k].from == cur {
            assert edges[k].from in waiting && k !in done;
            KahnFits(n, edges, done, was, nodes, inDeg, waiting, maxLayer);
            Relaxed(n, edges, done, was, nodes, inDeg, waiting, maxLayer, k);
            var newLayer := nodes[cur].layer + 1;
            var to := edges[k].to;
            if newLayer > nodes[to].layer {
              nodes := nodes[to := nodes[to].(layer := newLayer)];
            }
            if newLayer > maxLayer {
              maxLayer := newLayer;
            }
            inDeg := inDeg[to := inDeg[to] - 1];
            if inDeg[to] == 0 {
              waiting := waiting + [to];
            }
            done := done + {k};
          }
        }
        QueueFits(n, edges, done, was, nodes, inDeg, waiting, maxLayer);
        assert waiting[..qi + 1] == before + [cur];
        qi := qi + 1;
      }
      assert waiting[..qi] == waiting;
      KahnFits(n, edges, done, was, nodes, inDeg, waiting, maxLayer);
      KahnEnds(n, edges, done, was, nodes, inDeg, waiting, maxLayer);
      queue := waiting;
      SameIds(was, nodes);
    }
  }

  method CountInDegrees(n: nat, edges: seq<Edge>) returns (inDeg: seq<int>)
    requires InRange(n, edges)
    ensures |inDeg| == n && forall v :: 0 <= v < n ==> inDeg[v] == Pending(edges, {}, v, |edges|)
  {
    inDeg := seq(n, _ => 0);
    for k := 0 to |edges|
      invariant |inDeg| == n && forall v :: 0 <= v < n ==> inDeg[v] == Pending(edges, {}, v, k)
    {
      inDeg := inDeg[edges[k].to := inDeg[edges[k].to] + 1];
    }
  }

  /** The nodes without in-edges, in order. */
  method StartQueue(n: nat, ghost edges: seq<Edge>, inDeg: seq<int>) returns (queue: seq<nat>)
    requires |inDeg| == n
    ensures Distinct(queue) && forall v :: v in queue <==> 0 <= v < n && inDeg[v] == 0
  {
    queue := [];
    for i := 0 to n
      invariant Distinct(queue) && forall v :: v in queue <==> 0 <= v < i && inDeg[v] == 0
    {
      if inDeg[i] == 0 {
        queue := queue + [i];
      }
    }
  }

  /** What holds throughout: the queue and the in-degrees belong together, the layers belong to the edges relaxed so
      far, and nothing but the layers of the nodes has changed. */
  ghost predicate KahnInv(n: nat, edges: seq<Edge>, done: set<nat>, was: seq<Node>, nodes: seq<Node>, inDeg: seq<int>,
                          queue: seq<nat>, maxLayer: int) {
    && |nodes| == n && InRange(n, edges) && SameButLayers(was, nodes) && QueueInv(n, edges, done, inDeg, queue)
    && LayerInv(n, edges, done, LayersOf(nodes), maxLayer)
  }

  lemma KahnFits(n: nat, edges: seq<Edge>, done: set<nat>, was: seq<Node>, nodes: seq<Node>, inDeg: seq<int>,
                 queue: seq<nat>, maxLayer: int)
    requires KahnInv(n, edges, done, was, nodes, inDeg, queue, maxLayer)
    ensures |nodes| == n && |inDeg| == n && InRange(n, edges) && SameButLayers(was, nodes)
  {
    hide SameButLayers, LayerInv;
  }

  /** Relaxing an edge that leaves a queued node keeps what holds throughout. */
  lemma Relaxed(n: nat, edges: seq<Edge>, done: set<nat>, was: seq<Node>, nodes: seq<Node>, inDeg: seq<int>,
                queue: seq<nat>, maxLayer: int, e: nat)
    requires KahnInv(n, edges, done, was, nodes, inDeg, queue, maxLayer)
    requires e < |edges| && e !in done && edges[e].from in queue
    ensures InRange(n, edges) && |nodes| == |inDeg| == n
    ensures var to, newLayer := edges[e].to, nodes[edges[e].from].layer + 1;
            var nodes' := if newLayer > nodes[to].layer then nodes[to := nodes[to].(layer := newLayer)] else nodes;
            var inDeg' := inDeg[to := inDeg[to] - 1];
            KahnInv(n, edges, done + {e}, was, nodes', inDeg', if inDeg'[to] == 0 then queue + [to] else queue,
                    if newLayer > maxLayer then newLayer else maxLayer)
  {
    hide QueueInv, LayerInv, SameButLayers;
    var layers := LayersOf(nodes);
    RelaxFacts(n, edges, done, inDeg, queue, layers, maxLayer, e);
    var to, newLayer := edges[e].to, nodes[edges[e].from].layer + 1;
    SetLayer(nodes, to, newLayer);
    var inDeg' := inDeg[to := inDeg[to] - 1];
    RelaxQueue(n, edges, done, inDeg, queue, e, inDeg', if inDeg'[to] == 0 then queue + [to] else queue);
    RelaxLayers(n, edges, done, layers, maxLayer, e, if newLayer > layers[to] then layers[to := newLayer] else layers,
                if newLayer > maxLayer then newLayer else maxLayer);
  }

  /** When every edge that leaves a queued node has been relaxed, the layers are what they should be. */
  lemma KahnEnds(n: nat, edges: seq<Edge>, done: set<nat>, was: seq<Node>, nodes: seq<Node>, inDeg: seq<int>,
                 queue: seq<nat>, maxLayer: int)
    requires KahnInv(n, edges, done, was, nodes, inDeg, queue, maxLayer)
    requires forall j :: 0 <= j < |edges| ==> (j in done <==> edges[j].from in queue)
    ensures forall v :: 0 <= v < |nodes| ==>
              LongestAcyclicWalk(edges, v, nodes[v].layer) && 0 <= nodes[v].layer <= maxLayer
    ensures forall v :: 0 <= v < |nodes| && !BelowCycle(edges, v) ==> LongestWalk(edges, v, nodes[v].layer)
    ensures maxLayer == 0 || exists v :: 0 <= v < |nodes| && nodes[v].layer == maxLayer
    ensures Distinct(queue) && forall v :: 0 <= v < |nodes| ==> (v in queue <==> !BelowCycle(edges, v))
  {
    assert Distinct(queue);
    hide QueueInv, LayerInv, SameButLayers, LayersOf, LongestAcyclicWalk, LongestWalk, BelowCycle, Layered, Distinct;
    FinishedIsLayered(n, edges, done, inDeg, queue, LayersOf(nodes), maxLayer);
    QueuedIffNotBelowCycle(n, edges, queue, LayersOf(nodes));
    FinalLayers(n, edges, done, inDeg, queue, LayersOf(nodes), maxLayer);
    LayersOfNodes(edges, nodes, maxLayer);
  }

  lemma SameIds(was: seq<Node>, nodes: seq<Node>)
    requires SameButLayers(was, nodes)
    ensures |was| == |nodes| && forall i :: 0 <= i < |nodes| ==> nodes[i].id == was[i].id
  {
    forall i | 0 <= i < |nodes| ensures nodes[i].id == was[i].id {
      assert nodes[i].(layer := 0) == was[i].(layer := 0);
    }
  }

  lemma StartIsInv(n: nat, edges: seq<Edge>, inDeg: seq<int>, queue: seq<nat>, nodes: seq<Node>)
    requires InRange(n, edges) && |inDeg| == n == |nodes| && Distinct(queue)
    requires forall v :: 0 <= v < n ==> inDeg[v] == Pending(edges, {}, v, |edges|)
    requires forall v :: v in queue <==> 0 <= v < n && inDeg[v] == 0
    requires forall v :: 0 <= v < n ==> nodes[v].layer == 0
    ensures KahnInv(n, edges, {}, nodes, nodes, inDeg, queue, 0) && |queue| <= n
  {
    DistinctFits(queue, n);
    forall b | 0 <= b < |queue| ensures forall j :: 0 <= j < |edges| ==> edges[j].to != queue[b] {
      assert queue[b] in queue;
      PendingZero(edges, {}, queue[b], |edges|);
    }
  }

  lemma QueueFits(n: nat, edges: seq<Edge>, done: set<nat>, was: seq<Node>, nodes: seq<Node>, inDeg: seq<int>,
                  queue: seq<nat>, maxLayer: int)
    requires KahnInv(n, edges, done, was, nodes, inDeg, queue, maxLayer)
    ensures |queue| <= n
  {
    DistinctFits(queue, n);
  }

  /** No node is queued twice, so the node taken next was not taken before. */
  lemma CurIsNew(n: nat, edges: seq<Edge>, done: set<nat>, was: seq<Node>, nodes: seq<Node>, inDeg: seq<int>,
                 queue: seq<nat>, maxLayer: int, qi: nat)
    requires KahnInv(n, edges, done, was, nodes, inDeg, queue, maxLayer) && qi < |queue|
    ensures queue[qi] !in queue[..qi] && queue[qi] < n
  {
    assert queue[qi] in queue;
  }

  lemma RelaxFacts(n: nat, edges: seq<Edge>, done: set<nat>, inDeg: seq<int>, queue: seq<nat>, layers: seq<int>,
                   maxLayer: int, e: nat)
    requires InRange(n, edges) && QueueInv(n, edges, done, inDeg, queue) && LayerInv(n, edges, done, layers, maxLayer)
    requires e < |edges| && e !in done && edges[e].from in queue
    ensures |inDeg| == n && edges[e].to !in queue && inDeg[edges[e].to] > 0
    ensures forall j :: j in done ==> j < |edges| && edges[j].from != edges[e].to
  {
    PendingNotQueued(n, edges, done, inDeg, queue, e);
  }

  lemma FinalLayers(n: nat, edges: seq<Edge>, done: set<nat>, inDeg: seq<int>, queue: seq<nat>, layers: seq<int>,
                    maxLayer: int)
    requires InRange(n, edges) && QueueInv(n, edges, done, inDeg, queue) && LayerInv(n, edges, done, layers, maxLayer)
    requires forall j :: 0 <= j < |edges| ==> (j in done <==> edges[j].from in queue)
    ensures |layers| == n && forall v :: 0 <= v < n ==> LongestAcyclicWalk(edges, v, layers[v])
    ensures forall v :: 0 <= v < n && !BelowCycle(edges, v) ==> LongestWalk(edges, v, layers[v])
    ensures forall v :: 0 <= v < n ==> 0 <= layers[v] <= maxLayer
    ensures maxLayer == 0 || exists v :: 0 <= v < n && layers[v] == maxLayer
  {
    hide QueueInv, LayerInv, Layered, LongestAcyclicWalk, LongestWalk, BelowCycle;
    FinishedIsLayered(n, edges, done, inDeg, queue, layers, maxLayer);
    LayersAreLongestWalks(n, edges, queue, layers);
    MaxIsReached(n, edges, done, layers, maxLayer);
    forall v | 0 <= v < n && !BelowCycle(edges, v) ensures LongestWalk(edges, v, layers[v]) {
      LongestIsUnrestricted(edges, v, layers[v]);
    }
  }

  lemma LayersOfNodes(edges: seq<Edge>, nodes: seq<Node>, maxLayer: int)
    requires var layers := LayersOf(nodes);
             && (forall v :: 0 <= v < |nodes| ==> LongestAcyclicWalk(edges, v, layers[v]) && 0 <= layers[v] <= maxLayer)
             && (forall v :: 0 <= v < |nodes| && !BelowCycle(edges, v) ==> LongestWalk(edges, v, layers[v]))
             && (maxLayer == 0 || exists v :: 0 <= v < |nodes| && layers[v] == maxLayer)
    ensures forall v :: 0 <= v < |nodes| ==>
              LongestAcyclicWalk(edges, v, nodes[v].layer) && 0 <= nodes[v].layer <= maxLayer
    ensures forall v :: 0 <= v < |nodes| && !BelowCycle(edges, v) ==> LongestWalk(edges, v, nodes[v].layer)
    ensures maxLayer == 0 || exists v :: 0 <= v < |nodes| && nodes[v].layer == maxLayer
  {
    hide LongestAcyclicWalk, LongestWalk, BelowCycle;
    var layers := LayersOf(nodes);
    forall v | 0 <= v < |nodes|
      ensures LongestAcyclicWalk(edges, v, nodes[v].layer) && 0 <= nodes[v].layer <= maxLayer
      ensures !BelowCycle(edges, v) ==> LongestWalk(edges, v, nodes[v].layer)
    {
      assert nodes[v].layer == layers[v];
    }
    if maxLayer != 0 {
      var v :| 0 <= v < |nodes| && layers[v] == maxLayer;
      assert nodes[v].layer == maxLayer;
    }
  }

  lemma MaxIsReached(n: nat, edges: seq<Edge>, done: set<nat>, layers: seq<int>, maxLayer: int)
    requires InRange(n, edges) && LayerInv(n, edges, done, layers, maxLayer)
    ensures |layers| == n && forall v :: 0 <= v < n ==> 0 <= layers[v] <= maxLayer
    ensures maxLayer == 0 || exists v :: 0 <= v < n && layers[v] == maxLayer
  {
  }
}
