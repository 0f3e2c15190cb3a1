/** Walks in a directed graph over the nodes 0, 1, .., n-1, given as a list of edges. */
module Walks {

  datatype Edge = Edge(from: nat, to: nat)

  ghost predicate InRange(n: nat, edges: seq<Edge>) {
    forall j :: 0 <= j < |edges| ==> edges[j].from < n && edges[j].to < n
  }

  ghost predicate HasEdge(edges: seq<Edge>, u: nat, v: nat) {
    exists j :: 0 <= j < |edges| && edges[j].from == u && edges[j].to == v
  }

  /** `p` follows edges and ends at `v`; it has `|p| - 1` steps. */
  ghost predicate WalkTo(edges: seq<Edge>, p: seq<nat>, v: nat) {
    && |p| >= 1 && p[|p| - 1] == v
    && forall k :: 0 <= k < |p| - 1 ==> HasEdge(edges, p[k], p[k + 1])
  }

  /** `v` lies on a cycle or is reachable from one: some walk to `v` starts by going round a cycle. */
  ghost predicate BelowCycle(edges: seq<Edge>, v: nat) {
    exists p: seq<nat>, k :: WalkTo(edges, p, v) && 0 < k < |p| && p[0] == p[k]
  }

  /** A walk to `v` that meets no node below a cycle before its last node. */
  ghost predicate AcyclicWalkTo(edges: seq<Edge>, p: seq<nat>, v: nat) {
    WalkTo(edges, p, v) && forall k :: 0 <= k < |p| - 1 ==> !BelowCycle(edges, p[k])
  }

  /** `len` is the number of steps of a longest such walk to `v`. */
  ghost predicate LongestAcyclicWalk(edges: seq<Edge>, v: nat, len: int) {
    && (exists p :: AcyclicWalkTo(edges, p, v) && |p| - 1 == len)
    && (forall p :: AcyclicWalkTo(edges, p, v) ==> |p| - 1 <= len)
  }

  /** `len` is the number of steps of a longest walk to `v`, without restriction. */
  ghost predicate LongestWalk(edges: seq<Edge>, v: nat, len: int) {
    && (exists p :: WalkTo(edges, p, v) && |p| - 1 == len)
    && (forall p :: WalkTo(edges, p, v) ==> |p| - 1 <= len)
  }

  lemma WalkPrefix(edges: seq<Edge>, p: seq<nat>, v: nat, k: nat)
    requires WalkTo(edges, p, v) && k < |p|
    ensures WalkTo(edges, p[..k + 1], p[k])
    ensures WalkTo(edges, p[k..], v)
  {
    var a, b := p[..k + 1], p[k..];
    forall i | 0 <= i < |a| - 1 ensures HasEdge(edges, a[i], a[i + 1]) {
      assert a[i] == p[i] && a[i + 1] == p[i + 1];
    }
    forall i | 0 <= i < |b| - 1 ensures HasEdge(edges, b[i], b[i + 1]) {
      assert b[i] == p[k + i] && b[i + 1] == p[(k + i) + 1];
    }
  }

  lemma TrivialWalk(edges: seq<Edge>, v: nat)
    ensures WalkTo(edges, [v], v)
  {
  }

  lemma WalkEnds(edges: seq<Edge>, p: seq<nat>, v: nat)
    requires WalkTo(edges, p, v)
    ensures |p| >= 1 && p[|p| - 1] == v
  {
  }

  lemma WalkExtend(edges: seq<Edge>, p: seq<nat>, u: nat, v: nat)
    requires WalkTo(edges, p, u) && HasEdge(edges, u, v)
    ensures WalkTo(edges, p + [v], v)
  {
    var q := p + [v];
    forall i | 0 <= i < |q| - 1 ensures HasEdge(edges, q[i], q[i + 1]) {
      assert q[i] == p[i];
      if i < |p| - 1 {
        assert q[i + 1] == p[i + 1];
      }
    }
  }

  /** Whatever can be reached from a node below a cycle is below that cycle. */
  lemma BelowCycleSpreads(edges: seq<Edge>, p: seq<nat>, v: nat, t: nat)
    requires WalkTo(edges, p, v) && t < |p| && BelowCycle(edges, p[t])
    ensures BelowCycle(edges, v)
  {
    var q: seq<nat>, k :| WalkTo(edges, q, p[t]) && 0 < k < |q| && q[0] == q[k];
    WalkPrefix(edges, p, v, t);
    var r := p[t..];
    var whole := q + r[1..];
    forall i | 0 <= i < |whole| - 1 ensures HasEdge(edges, whole[i], whole[i + 1]) {
      if i < |q| - 1 {
        assert whole[i] == q[i] && whole[i + 1] == q[i + 1];
      } else {
        var m := i - (|q| - 1);
        assert whole[i] == r[m] && whole[i + 1] == r[m + 1];
      }
    }
    assert WalkTo(edges, whole, v) && whole[0] == whole[k];
  }

  /** On a node that is not below a cycle the restriction of `LongestAcyclicWalk` is vacuous. */
  lemma LongestIsUnrestricted(edges: seq<Edge>, v: nat, len: int)
    requires LongestAcyclicWalk(edges, v, len) && !BelowCycle(edges, v)
    ensures LongestWalk(edges, v, len)
  {
    forall p | WalkTo(edges, p, v) ensures |p| - 1 <= len {
      forall t | 0 <= t < |p| - 1 ensures !BelowCycle(edges, p[t]) {
        if BelowCycle(edges, p[t]) {
          BelowCycleSpreads(edges, p, v, t);
        }
      }
      assert AcyclicWalkTo(edges, p, v);
    }
  }

  // ----- counting -----

  ghost predicate Distinct(p: seq<nat>) {
    forall i, j :: 0 <= i < j < |p| ==> p[i] != p[j]
  }

  ghost function Range(n: nat): (r: set<nat>)
    ensures forall x: nat :: x in r <==> x < n
    ensures |r| == n
  {
    if n == 0 then {} else Range(n - 1) + {n - 1}
  }

  lemma {:induction false} SubsetSize(a: set<nat>, b: set<nat>)
    requires a <= b
    ensures |a| <= |b|
    decreases a
  {
    if a != {} {
      var x :| x in a;
      SubsetSize(a - {x}, b - {x});
    }
  }

  ghost function Elements(p: seq<nat>): (r: set<nat>)
    ensures forall x: nat :: x in r <==> x in p
  {
    if p == [] then {} else Elements(p[..|p| - 1]) + {p[|p| - 1]}
  }

  lemma {:induction false} DistinctSize(p: seq<nat>)
    requires Distinct(p)
    ensures |Elements(p)| == |p|
  {
    if p != [] {
      DistinctSize(p[..|p| - 1]);
    }
  }

  /** A list of distinct numbers below `n` has at most `n` elements. */
  lemma DistinctFits(p: seq<nat>, n: nat)
    requires Distinct(p) && forall x :: x in p ==> x < n
    ensures |p| <= n
  {
    DistinctSize(p);
    SubsetSize(Elements(p), Range(n));
  }
}
