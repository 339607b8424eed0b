/**
 Paths and reachability in the block graph, and the worklist that computes reachability.
 */
module ControlFlow {
  import opened Basics
  import opened GasBlocks

  /** An edge between existing blocks; out-of-range successors are ignored, as the source ignores them. */
  predicate Edge(g: seq<GasBlock>, u: nat, v: nat) {
    u < |g| && v < |g| && v in g[u].succs
  }

  /** `preds` is the transpose of `succs`, all ids are in range and no list repeats an id. */
  ghost predicate WellFormed(g: seq<GasBlock>) {
    && (forall u: nat, v: nat :: u < |g| && v in g[u].succs ==> v < |g|)
    && (forall u: nat, v: nat :: v < |g| && u in g[v].preds ==> u < |g|)
    && (forall u: nat, v: nat :: u < |g| && v < |g| ==> (v in g[u].succs <==> u in g[v].preds))
    && (forall u: nat :: u < |g| ==> Distinct(g[u].succs) && Distinct(g[u].preds))
  }

  /** A non-empty sequence of blocks joined by edges. */
  ghost predicate IsPath(g: seq<GasBlock>, p: seq<nat>) {
    |p| >= 1 && p[0] < |g| && forall i :: 0 <= i < |p| - 1 ==> Edge(g, p[i], p[i + 1])
  }

  ghost predicate PathFromTo(g: seq<GasBlock>, p: seq<nat>, u: nat, v: nat) {
    IsPath(g, p) && p[0] == u && p[|p| - 1] == v
  }

  /** `v` can be reached from `u` by zero or more edges. */
  ghost predicate Reaches(g: seq<GasBlock>, u: nat, v: nat) {
    exists p :: PathFromTo(g, p, u, v)
  }

  /** `u` lies on a cycle: it reaches itself by at least one edge. */
  ghost predicate OnCycle(g: seq<GasBlock>, u: nat) {
    exists v :: Edge(g, u, v) && Reaches(g, v, u)
  }

  /** Mutual reachability. */
  ghost predicate SameComponent(g: seq<GasBlock>, u: nat, v: nat) {
    Reaches(g, u, v) && Reaches(g, v, u)
  }

  lemma PathInRange(g: seq<GasBlock>, p: seq<nat>, i: nat)
    requires IsPath(g, p) && i < |p|
    ensures p[i] < |g|
  {
    if i > 0 {
      assert Edge(g, p[i - 1], p[i - 1 + 1]);
    }
  }

  lemma ReachesSelf(g: seq<GasBlock>, u: nat)
    requires u < |g|
    ensures Reaches(g, u, u)
  {
    assert PathFromTo(g, [u], u, u);
  }

  lemma JoinPaths(g: seq<GasBlock>, p: seq<nat>, q: seq<nat>, u: nat, v: nat, w: nat)
    requires PathFromTo(g, p, u, v) && PathFromTo(g, q, v, w)
    ensures PathFromTo(g, p + q[1..], u, w)
  {
    var r := p + q[1..];
    forall i | 0 <= i < |r| - 1
      ensures Edge(g, r[i], r[i + 1])
    {
      if i < |p| - 1 {
        assert Edge(g, p[i], p[i + 1]);
      } else {
        var k := i - (|p| - 1);
        assert r[i] == q[k] && r[i + 1] == q[k + 1];
        assert Edge(g, q[k], q[k + 1]);
      }
    }
  }

  lemma ReachesTransitive(g: seq<GasBlock>, u: nat, v: nat, w: nat)
    requires Reaches(g, u, v) && Reaches(g, v, w)
    ensures Reaches(g, u, w)
  {
    var p :| PathFromTo(g, p, u, v);
    var q :| PathFromTo(g, q, v, w);
    JoinPaths(g, p, q, u, v, w);
  }

  lemma ReachesEdge(g: seq<GasBlock>, u: nat, v: nat)
    requires Edge(g, u, v)
    ensures Reaches(g, u, v)
  {
    assert PathFromTo(g, [u, v], u, v);
  }

  lemma ReachesInRange(g: seq<GasBlock>, u: nat, v: nat)
    requires Reaches(g, u, v)
    ensures u < |g| && v < |g|
  {
    var p :| PathFromTo(g, p, u, v);
    PathInRange(g, p, |p| - 1);
  }

  lemma SubPath(g: seq<GasBlock>, p: seq<nat>, i: nat, j: nat)
    requires IsPath(g, p) && i <= j < |p|
    ensures PathFromTo(g, p[i..j + 1], p[i], p[j])
  {
    PathInRange(g, p, i);
    var q := p[i..j + 1];
    forall k | 0 <= k < |q| - 1
      ensures Edge(g, q[k], q[k + 1])
    {
      assert Edge(g, p[i + k], p[i + k + 1]);
    }
  }

  lemma PathReaches(g: seq<GasBlock>, p: seq<nat>, i: nat, j: nat)
    requires IsPath(g, p) && i <= j < |p|
    ensures Reaches(g, p[i], p[j])
  {
    SubPath(g, p, i, j);
  }

  /** A path from inside a set to outside it crosses the boundary by one edge. */
  lemma {:induction false} PathLeavesSet(g: seq<GasBlock>, p: seq<nat>, s: set<nat>) returns (k: nat)
    requires IsPath(g, p) && p[0] in s && p[|p| - 1] !in s
    ensures k + 1 < |p| && p[k] in s && p[k + 1] !in s && Edge(g, p[k], p[k + 1])
  {
    k := 0;
    while p[k + 1] in s
      invariant k + 1 < |p| && p[k] in s
      decreases |p| - k
    {
      k := k + 1;
    }
    assert Edge(g, p[k], p[k + 1]);
  }

  /** A set closed under edges that contains `u` contains everything `u` reaches. */
  lemma ClosedSetHoldsReachable(g: seq<GasBlock>, s: set<nat>, u: nat, v: nat)
    requires u in s && Reaches(g, u, v)
    requires forall a, b :: a in s && Edge(g, a, b) ==> b in s
    ensures v in s
  {
    var p :| PathFromTo(g, p, u, v);
    if v !in s {
      var k := PathLeavesSet(g, p, s);
      assert false;
    }
  }

  /** Sum of a per-block quantity along a path. */
  function PathSum(w: seq<nat>, p: seq<nat>): (c: nat) {
    if p == [] then 0 else At(w, p[0]) + PathSum(w, p[1..])
  }

  function At(w: seq<nat>, i: nat): nat {
    if i < |w| then w[i] else 0
  }

  lemma PathSumCons(w: seq<nat>, u: nat, p: seq<nat>)
    ensures PathSum(w, [u] + p) == At(w, u) + PathSum(w, p)
  {
    assert ([u] + p)[1..] == p;
  }

  function Costs(g: seq<GasBlock>): (c: seq<nat>)
    ensures |c| == |g| && forall i :: 0 <= i < |g| ==> c[i] == g[i].cost
  {
    seq(|g|, i requires 0 <= i < |g| => g[i].cost)
  }

  /** Blocks reachable from the entry, by a depth-first worklist. */
  method ComputeReachable(g: seq<GasBlock>, entry: nat) returns (reachable: seq<bool>)
    ensures |reachable| == |g|
    ensures forall v :: 0 <= v < |g| ==> (reachable[v] <==> Reaches(g, entry, v))
  {
    hide Reaches;
    reachable := seq(|g|, _ => false);
    if |g| == 0 || entry >= |g| {
      forall v | 0 <= v < |g|
        ensures !Reaches(g, entry, v)
      {
        if Reaches(g, entry, v) {
          ReachesInRange(g, entry, v);
        }
      }
      return;
    }
    var stack: seq<nat> := [entry];
    reachable := reachable[entry := true];
    ReachesSelf(g, entry);
    ghost var todo := set v: nat | v < |g| && !reachable[v];
    while |stack| > 0
      invariant |reachable| == |g| && reachable[entry]
      invariant forall v :: v in stack ==> v < |g| && reachable[v]
      invariant forall v :: 0 <= v < |g| && reachable[v] ==> Reaches(g, entry, v)
      invariant forall u: nat, v: nat :: u < |g| && reachable[u] && u !in stack && Edge(g, u, v) ==> reachable[v]
      invariant todo == (set v: nat | v < |g| && !reachable[v])
      decreases todo, |stack|
    {
      var node := stack[|stack| - 1];
      assert node in stack;
      ghost var below := stack[..|stack| - 1];
      assert forall v :: v in stack <==> v in below || v == node;
      stack := stack[..|stack| - 1];
      ghost var todo0, height0 := todo, |stack|;
      var i := 0;
      while i < |g[node].succs|
        invariant 0 <= i <= |g[node].succs|
        invariant |reachable| == |g| && reachable[entry] && reachable[node]
        invariant forall v :: v in stack ==> v < |g| && reachable[v]
        invariant forall v :: 0 <= v < |g| && reachable[v] ==> Reaches(g, entry, v)
        invariant forall u: nat, v: nat :: u < |g| && reachable[u] && u !in stack && u != node && Edge(g, u, v) ==> reachable[v]
        invariant forall k :: 0 <= k < i && g[node].succs[k] < |g| ==> reachable[g[node].succs[k]]
        invariant todo == (set v: nat | v < |g| && !reachable[v])
        invariant todo <= todo0 && (todo == todo0 ==> |stack| == height0)
      {
        var succ := g[node].succs[i];
        if succ < |g| && !reachable[succ] {
          ReachesEdge(g, node, succ);
          ReachesTransitive(g, entry, node, succ);
          assert succ in todo;
          reachable := reachable[succ := true];
          stack := stack + [succ];
          todo := todo - {succ};
        }
        i := i + 1;
      }
    }
    forall v | 0 <= v < |g| && Reaches(g, entry, v)
      ensures reachable[v]
    {
      ClosedSetHoldsReachable(g, (set u: nat | u < |g| && reachable[u]), entry, v);
    }
  }
}
