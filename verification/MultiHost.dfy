/** Routing over several hosts with failover (src/provider/multi_host_provider.cpp). What a host answers is a
    parameter of each call; an empty answer counts as a failure. */
module MultiHost {

  datatype Host = Host(models: seq<string>, healthy: bool)

  datatype State = State(hosts: seq<Host>, active: nat)

  // ----- what the object keeps -----

  ghost predicate SomeHealthy(hosts: seq<Host>) {
    exists i :: 0 <= i < |hosts| && hosts[i].healthy
  }

  /** The active index is valid, and the active host is healthy unless no host is. */
  ghost predicate Valid(s: State) {
    s.active < |s.hosts| && (s.hosts[s.active].healthy || !SomeHealthy(s.hosts))
  }

  ghost function Healthy(hosts: seq<Host>): nat {
    if hosts == [] then 0 else Healthy(hosts[..|hosts| - 1]) + (if hosts[|hosts| - 1].healthy then 1 else 0)
  }

  // ----- the steps -----

  /** The first healthy host with the model, or else the first healthy host, or else host 0. */
  ghost predicate IsHostFor(hosts: seq<Host>, model: string, r: nat) {
    if exists i :: 0 <= i < |hosts| && hosts[i].healthy && model in hosts[i].models then
      && r < |hosts| && hosts[r].healthy && model in hosts[r].models
      && forall i :: 0 <= i < r ==> !(hosts[i].healthy && model in hosts[i].models)
    else if SomeHealthy(hosts) then
      r < |hosts| && hosts[r].healthy && forall i :: 0 <= i < r ==> !hosts[i].healthy
    else r == 0
  }

  /** The hosts after the active one has been marked. */
  function Marked(s: State): (hosts: seq<Host>)
    requires s.active < |s.hosts|
    ensures |hosts| == |s.hosts|
  {
    s.hosts[s.active := s.hosts[s.active].(healthy := false)]
  }

  lemma Wraps(x: nat, n: nat)
    requires x < 2 * n
    ensures x % n == if x < n then x else x - n
  {
    if x >= n {
      assert x / n == 1;
    }
  }

  /** The host at distance `d` behind the active one, cyclically. */
  function Behind(active: nat, d: nat, n: nat): (k: nat)
    requires active < n && d < n
    ensures k < n
    ensures k == if active + d < n then active + d else active + d - n
  {
    Wraps(active + d, n);
    (active + d) % n
  }

  /** The first healthy host at distance `i` or more behind the active one, cyclically, or -1. */
  function NextHealthy(hosts: seq<Host>, active: nat, i: nat): (r: int)
    requires active < |hosts| && 1 <= i <= |hosts|
    ensures r == -1 || (0 <= r < |hosts| && hosts[r].healthy)
    decreases |hosts| - i
  {
    if i == |hosts| then -1
    else if hosts[Behind(active, i, |hosts|)].healthy then Behind(active, i, |hosts|)
    else NextHealthy(hosts, active, i + 1)
  }

  function Failover(s: State): (r: (State, bool))
    requires s.active < |s.hosts|
  {
    var hosts := Marked(s);
    var next := NextHealthy(hosts, s.active, 1);
    if next >= 0 then (State(hosts, next), true) else (State(hosts, s.active), false)
  }

  /** One chat call: the first answer, and the answer of the next host after a failure. */
  function Chat(s: State, first: string, second: string): (r: (State, string))
    requires s.active < |s.hosts|
  {
    if first != "" then (s, first)
    else
      var (s', moved) := Failover(s);
      (s', if moved then second else first)
  }

  // ----- the object -----

  class MultiHostProvider {
    var hosts: seq<Host>
    var active: nat

    function Abstract(): State
      reads this
    {
      State(hosts, active)
    }

    /** The source probes each host: it is healthy when it lists a model. At least one host is configured. */
    constructor (listed: seq<seq<string>>, model: string)
      requires listed != []
      ensures |hosts| == |listed| && Valid(Abstract()) && IsHostFor(hosts, model, active)
      ensures forall i :: 0 <= i < |listed| ==> hosts[i] == Host(listed[i], listed[i] != [])
    {
      hosts := seq(|listed|, i requires 0 <= i < |listed| => Host(listed[i], listed[i] != []));
      active := 0;
      new;
      active := FindHostForModel(model);
    }

    method FindHostForModel(model: string) returns (r: nat)
      requires hosts != []
      ensures IsHostFor(hosts, model, r) && r < |hosts|
      ensures hosts[r].healthy || !SomeHealthy(hosts)
    {
      for i := 0 to |hosts|
        invariant forall k :: 0 <= k < i ==> !(hosts[k].healthy && model in hosts[k].models)
      {
        if hosts[i].healthy {
          for m := 0 to |hosts[i].models|
            invariant model !in hosts[i].models[..m]
          {
            if hosts[i].models[m] == model {
              return i;
            }
          }
          assert hosts[i].models[..|hosts[i].models|] == hosts[i].models;
        }
      }
      for i := 0 to |hosts|
        invariant forall k :: 0 <= k < i ==> !hosts[k].healthy
      {
        if hosts[i].healthy { return i; }
      }
      return 0;
    }

    method DoFailover() returns (moved: bool)
      requires active < |hosts|
      modifies this
      ensures (Abstract(), moved) == Failover(old(Abstract()))
    {
      hosts := hosts[active := hosts[active].(healthy := false)];
      var i := 1;
      while i < |hosts|
        invariant 1 <= i <= |hosts| || (i == 1 && |hosts| == 0)
        invariant hosts == Marked(old(Abstract())) && active == old(active)
        invariant NextHealthy(hosts, active, i) == NextHealthy(hosts, active, 1)
      {
        var idx := Behind(active, i, |hosts|);
        if hosts[idx].healthy {
          active := idx;
          return true;
        }
        i := i + 1;
      }
      return false;
    }

    /** `answer` is what a host would answer to this request. */
    method DoChat(answer: nat -> string) returns (result: string)
      requires active < |hosts|
      modifies this
      ensures var s := old(Abstract());
              (Abstract(), result) == Chat(s, answer(s.active), answer(Failover(s).0.active))
    {
      result := answer(active);
      if result == "" {
        var moved := DoFailover();
        if moved {
          result := answer(active);
        }
      }
    }
  }

  // ----- what failover does -----

  /** The cyclic search visits every other host. */
  lemma {:induction false} SearchCovers(hosts: seq<Host>, active: nat, i: nat)
    requires active < |hosts| && 1 <= i <= |hosts|
    ensures NextHealthy(hosts, active, i) == -1 <==>
            forall d :: i <= d < |hosts| ==> !hosts[Behind(active, d, |hosts|)].healthy
    decreases |hosts| - i
  {
    if i < |hosts| {
      SearchCovers(hosts, active, i + 1);
    }
  }

  /** The host is the nearest healthy one behind the active host, in cyclic order. */
  ghost predicate IsNext(s: State, r: nat)
    requires s.active < |s.hosts|
  {
    exists d :: 1 <= d < |s.hosts| && r == Behind(s.active, d, |s.hosts|) && NoneNearer(s.hosts, s.active, 1, d)
  }

  ghost predicate NoneNearer(hosts: seq<Host>, active: nat, from: nat, d: nat)
    requires active < |hosts| && d < |hosts|
  {
    forall e :: from <= e < d ==> !hosts[Behind(active, e, |hosts|)].healthy
  }

  /** The host that the search returns is the nearest one. */
  lemma {:induction false} FoundIsNearest(hosts: seq<Host>, active: nat, i: nat) returns (d: nat)
    requires active < |hosts| && 1 <= i <= |hosts| && NextHealthy(hosts, active, i) != -1
    ensures i <= d < |hosts| && NextHealthy(hosts, active, i) == Behind(active, d, |hosts|)
    ensures NoneNearer(hosts, active, i, d)
    decreases |hosts| - i
  {
    if hosts[Behind(active, i, |hosts|)].healthy {
      d := i;
    } else {
      d := FoundIsNearest(hosts, active, i + 1);
    }
  }

  lemma NearestIsNext(s: State, d: nat)
    requires s.active < |s.hosts| && 1 <= d < |s.hosts| && NoneNearer(Marked(s), s.active, 1, d)
    ensures IsNext(s, Behind(s.active, d, |s.hosts|))
  {
    forall e | 1 <= e < d ensures !s.hosts[Behind(s.active, e, |s.hosts|)].healthy {
      assert !Marked(s)[Behind(s.active, e, |s.hosts|)].healthy;
    }
    assert NoneNearer(s.hosts, s.active, 1, d);
  }

  lemma DistanceTo(n: nat, active: nat, k: nat) returns (d: nat)
    requires active < n && k < n && k != active
    ensures 1 <= d < n && Behind(active, d, n) == k
  {
    d := if k > active then k - active else k + n - active;
  }

  /** Failover fails exactly when no host is healthy any more, and keeps the object valid. */
  lemma FailoverIsComplete(s: State)
    requires s.active < |s.hosts|
    ensures var (s', moved) := Failover(s);
            && Valid(s') && |s'.hosts| == |s.hosts|
            && (moved <==> SomeHealthy(s'.hosts))
            && (moved ==> s'.active != s.active && s.hosts[s'.active].healthy && IsNext(s, s'.active))
            && (!moved ==> s'.active == s.active)
            && (forall i :: 0 <= i < |s.hosts| ==>
              s'.hosts[i] == if i == s.active then s.hosts[i].(healthy := false) else s.hosts[i])
  {
    hide NextHealthy;
    var hosts := Marked(s);
    SearchCovers(hosts, s.active, 1);
    if NextHealthy(hosts, s.active, 1) != -1 {
      var d := FoundIsNearest(hosts, s.active, 1);
      NearestIsNext(s, d);
    }
    if NextHealthy(hosts, s.active, 1) == -1 {
      forall k | 0 <= k < |hosts| ensures !hosts[k].healthy {
        if k != s.active {
          var d := DistanceTo(|hosts|, s.active, k);
        }
      }
    }
  }

  /** Marking a host takes exactly one healthy host away if it was healthy. */
  lemma {:induction false} MarkedCount(hosts: seq<Host>, k: nat)
    requires k < |hosts|
    ensures Healthy(hosts[k := hosts[k].(healthy := false)]) == Healthy(hosts) - (if hosts[k].healthy then 1 else 0)
  {
    var n := |hosts| - 1;
    var marked := hosts[k := hosts[k].(healthy := false)];
    if k == n {
      assert marked[..n] == hosts[..n];
    } else {
      assert marked[..n] == hosts[..n][k := hosts[k].(healthy := false)];
      MarkedCount(hosts[..n], k);
    }
  }

  lemma {:induction false} HealthyPositive(hosts: seq<Host>)
    ensures Healthy(hosts) > 0 <==> SomeHealthy(hosts)
  {
    if hosts != [] {
      var n := |hosts| - 1;
      HealthyPositive(hosts[..n]);
      if SomeHealthy(hosts[..n]) {
        var i :| 0 <= i < n && hosts[..n][i].healthy;
        assert hosts[i].healthy;
      }
      if SomeHealthy(hosts) && !hosts[n].healthy {
        var i :| 0 <= i < |hosts| && hosts[i].healthy;
        assert hosts[..n][i].healthy;
      }
    }
  }

  // ----- whole runs -----

  /** A run: the answers of the first and second host asked, call by call. */
  ghost function Run(s: State, calls: seq<(string, string)>): State
    requires s.active < |s.hosts|
    decreases |calls|
  {
    if calls == [] then s
    else
      FailoverIsComplete(s);
      Run(Chat(s, calls[0].0, calls[0].1).0, calls[1..])
  }

  /** The number of calls in the run that moved to another host. */
  ghost function Moves(s: State, calls: seq<(string, string)>): nat
    requires s.active < |s.hosts|
    decreases |calls|
  {
    if calls == [] then 0
    else
      FailoverIsComplete(s);
      (if calls[0].0 == "" && Failover(s).1 then 1 else 0) + Moves(Chat(s, calls[0].0, calls[0].1).0, calls[1..])
  }

  /** One call: what it answers, and that it keeps the object valid. */
  lemma ChatStep(s: State, first: string, second: string)
    requires Valid(s)
    ensures var (s', result) := Chat(s, first, second);
            && Valid(s') && |s'.hosts| == |s.hosts|
            && result == (if first != "" then first else if SomeHealthy(s'.hosts) then second else "")
            && (first != "" ==> s' == s)
            && Healthy(s'.hosts) == Healthy(s.hosts) - (if first == "" && s.hosts[s.active].healthy then 1 else 0)
            && (forall i :: 0 <= i < |s.hosts| ==> s'.hosts[i].models == s.hosts[i].models)
            && (forall i :: 0 <= i < |s.hosts| && s'.hosts[i].healthy ==> s.hosts[i].healthy)
  {
    FailoverIsComplete(s);
    MarkedCount(s.hosts, s.active);
  }

  /** Over any run: the object stays valid, no host becomes healthy again, and a run that starts with h healthy
      hosts moves at most max(h - 1, 0) times. */
  lemma {:induction false} RunIsSafe(s: State, calls: seq<(string, string)>)
    requires Valid(s)
    ensures var s' := Run(s, calls);
            && Valid(s') && |s'.hosts| == |s.hosts|
            && (forall i :: 0 <= i < |s.hosts| && s'.hosts[i].healthy ==> s.hosts[i].healthy)
            && Moves(s, calls) <= (if Healthy(s.hosts) > 0 then Healthy(s.hosts) - 1 else 0)
            && Moves(s, calls) <= Healthy(s.hosts) - Healthy(s'.hosts)
    decreases |calls|
  {
    if calls != [] {
      var first, second := calls[0].0, calls[0].1;
      FailoverIsComplete(s);
      ChatStep(s, first, second);
      var s1 := Chat(s, first, second).0;
      HealthyPositive(s.hosts);
      HealthyPositive(s1.hosts);
      RunIsSafe(s1, calls[1..]);
    }
  }
}
