/**
 Which blocks lie on a cycle: depth-first finishing order over successors, then components
 collected over predecessors in reverse finishing order.

 The finishing order is characterised by `Settled`: whenever a block has finished, either
 everything it reaches has finished too, or it shares a component with an unfinished block.
 That is all the second pass needs.
 */
module Cycles {
  import opened Basics
  import opened GasBlocks
  import opened ControlFlow

  /** Everything `u` reaches is done, or `u` shares a component with something not done. */
  ghost predicate Settled(g: seq<GasBlock>, done: seq<nat>, u: nat) {
    (forall v :: Reaches(g, u, v) ==> v in done) || (exists s :: s !in done && SameComponent(g, u, s))
  }

  ghost predicate AllSettled(g: seq<GasBlock>, done: seq<nat>) {
    forall u :: u in done ==> Settled(g, done, u)
  }

  /** A finishing order: every block once, and every prefix settled. */
  ghost predicate FinishingOrder(g: seq<GasBlock>, order: seq<nat>) {
    && Distinct(order)
    && (forall v: nat :: v in order <==> v < |g|)
    && (forall k :: 0 <= k <= |order| ==> AllSettled(g, order[..k]))
  }

  /** Stronger form of `AllSettled` during the search: the unfinished partner is on the stack. */
  ghost predicate SettledOrStacked(g: seq<GasBlock>, done: seq<nat>, path: seq<nat>) {
    forall u :: u in done ==>
      (forall v :: Reaches(g, u, v) ==> v in done) || (exists s :: s in path && SameComponent(g, u, s))
  }

  lemma SettledFromStack(g: seq<GasBlock>, done: seq<nat>, path: seq<nat>)
    requires SettledOrStacked(g, done, path) && forall s :: s in path ==> s !in done
    ensures AllSettled(g, done)
  {
  }

  lemma SameComponentTransitive(g: seq<GasBlock>, u: nat, v: nat, w: nat)
    requires SameComponent(g, u, v) && SameComponent(g, v, w)
    ensures SameComponent(g, u, w)
  {
    ReachesTransitive(g, u, v, w);
    ReachesTransitive(g, w, v, u);
  }

  /** The top of the stack finishes: what it reaches is finished, or a block below shares its component. */
  lemma TopSettles(g: seq<GasBlock>, done: seq<nat>, below: seq<nat>, t: nat)
    requires IsPath(g, below + [t])
    requires forall u, v :: u in done + [t] && Edge(g, u, v) ==> v in done + [t] || v in below
    ensures (forall v :: Reaches(g, t, v) ==> v in done + [t]) || (exists s :: s in below && SameComponent(g, t, s))
  {
    if v :| Reaches(g, t, v) && v !in done + [t] {
      var q :| PathFromTo(g, q, t, v);
      var k := PathLeavesSet(g, q, set u | u in done + [t]);
      var z := q[k + 1];
      PathReaches(g, q, 0, k + 1);
      var i :| 0 <= i < |below| && below[i] == z;
      var path := below + [t];
      assert path[i] == z && path[|below|] == t;
      PathReaches(g, path, i, |below|);
    }
  }

  lemma FinishTop(g: seq<GasBlock>, done: seq<nat>, below: seq<nat>, t: nat)
    requires IsPath(g, below + [t]) && SettledOrStacked(g, done, below + [t])
    requires forall u, v :: u in done + [t] && Edge(g, u, v) ==> v in done + [t] || v in below
    ensures SettledOrStacked(g, done + [t], below)
  {
    TopSettles(g, done, below, t);
    forall u | u in done + [t]
      ensures (forall v :: Reaches(g, u, v) ==> v in done + [t]) || (exists s :: s in below && SameComponent(g, u, s))
    {
      if u in done && !(forall v :: Reaches(g, u, v) ==> v in done) {
        var s :| s in below + [t] && SameComponent(g, u, s);
        if s == t {
          if z :| z in below && SameComponent(g, t, z) {
            SameComponentTransitive(g, u, t, z);
          } else {
            forall v | Reaches(g, u, v)
              ensures v in done + [t]
            {
              ReachesTransitive(g, t, u, v);
            }
          }
        }
      }
    }
  }

  datatype DfsFrame = DfsFrame(node: nat, succIndex: nat)

  function Nodes(stack: seq<DfsFrame>): (s: seq<nat>)
    ensures |s| == |stack| && forall i :: 0 <= i < |s| ==> s[i] == stack[i].node
  {
    seq(|stack|, i requires 0 <= i < |stack| => stack[i].node)
  }

  /** Visited blocks are the finished ones and the ones on the stack, and the stack is a path. */
  ghost predicate Bookkeeping(g: seq<GasBlock>, visited: seq<bool>, order: seq<nat>, path: seq<nat>) {
    && |visited| == |g|
    && (forall v: nat :: v in order || v in path ==> v < |g|)
    && (forall v: nat :: v < |g| ==> (visited[v] <==> v in order || v in path))
    && Distinct(order) && Distinct(path) && (forall v :: v in path ==> v !in order)
    && (|path| > 0 ==> IsPath(g, path))
  }

  /** The successors a frame has passed are visited. */
  predicate Scanned(g: seq<GasBlock>, visited: seq<bool>, f: DfsFrame) {
    && f.node < |g| && f.succIndex <= |g[f.node].succs|
    && forall k :: 0 <= k < f.succIndex ==>
         var succ := g[f.node].succs[k]; succ < |g| && succ < |visited| ==> visited[succ]
  }

  /** Edges out of finished blocks lead to visited blocks. */
  ghost predicate FinishedClosed(g: seq<GasBlock>, order: seq<nat>, path: seq<nat>) {
    forall u, v :: u in order && Edge(g, u, v) ==> v in order || v in path
  }

  ghost predicate PrefixesSettled(g: seq<GasBlock>, order: seq<nat>) {
    forall k :: 0 <= k <= |order| ==> AllSettled(g, order[..k])
  }

  /** The state of the first pass between two steps. */
  ghost predicate SearchState(g: seq<GasBlock>, visited: seq<bool>, order: seq<nat>, stack: seq<DfsFrame>) {
    && Bookkeeping(g, visited, order, Nodes(stack))
    && (forall i :: 0 <= i < |stack| ==> Scanned(g, visited, stack[i]))
    && FinishedClosed(g, order, Nodes(stack))
    && SettledOrStacked(g, order, Nodes(stack))
    && PrefixesSettled(g, order)
  }

  lemma ExtendPath(g: seq<GasBlock>, path: seq<nat>, v: nat)
    requires v < |g| && (|path| > 0 ==> IsPath(g, path) && Edge(g, path[|path| - 1], v))
    ensures IsPath(g, path + [v])
  {
    var path' := path + [v];
    forall i | 0 <= i < |path'| - 1
      ensures Edge(g, path'[i], path'[i + 1])
    {
      if i + 1 < |path| {
        assert Edge(g, path[i], path[i + 1]);
      }
    }
  }

  lemma PushFrame(g: seq<GasBlock>, visited: seq<bool>, order: seq<nat>, stack: seq<DfsFrame>, v: nat)
    requires SearchState(g, visited, order, stack) && v < |g| && !visited[v]
    requires |stack| > 0 ==> Edge(g, stack[|stack| - 1].node, v)
    ensures SearchState(g, visited[v := true], order, stack + [DfsFrame(v, 0)])
  {
    hide SameComponent, Reaches, AllSettled, Edge;
    var path, stack' := Nodes(stack), stack + [DfsFrame(v, 0)];
    assert Nodes(stack') == path + [v];
    ExtendPath(g, path, v);
    hide IsPath;
    assert Bookkeeping(g, visited[v := true], order, path + [v]);
    assert forall u :: u in path ==> u in path + [v];
    assert SettledOrStacked(g, order, path + [v]);
    forall i | 0 <= i < |stack'|
      ensures Scanned(g, visited[v := true], stack'[i])
    {
      if i < |stack| {
        assert Scanned(g, visited, stack[i]);
      }
    }
  }

  lemma AppendedDistinct(order: seq<nat>, below: seq<nat>, t: nat)
    requires Distinct(order) && Distinct(below + [t]) && t !in order
    ensures Distinct(order + [t]) && Distinct(below)
  {
    assert forall i :: 0 <= i < |below| ==> below[i] == (below + [t])[i];
  }

  lemma PopBookkeeping(g: seq<GasBlock>, visited: seq<bool>, order: seq<nat>, below: seq<nat>, t: nat)
    requires Bookkeeping(g, visited, order, below + [t])
    ensures Bookkeeping(g, visited, order + [t], below)
  {
    hide IsPath;
    var path := below + [t];
    assert forall v :: v in path <==> v in below || v == t;
    assert t == path[|below|] && t in path;
    assert Distinct(order + [t]) && Distinct(below) by { AppendedDistinct(order, below, t); }
    hide Distinct;
    if |below| > 0 {
      SubPath(g, path, 0, |below| - 1);
      assert path[0..|below| - 1 + 1] == below;
    }
  }

  lemma PrefixesExtend(g: seq<GasBlock>, order: seq<nat>, t: nat)
    requires PrefixesSettled(g, order) && AllSettled(g, order + [t])
    ensures PrefixesSettled(g, order + [t])
  {
    hide AllSettled;
    forall k | 0 <= k <= |order| + 1
      ensures AllSettled(g, (order + [t])[..k])
    {
      if k <= |order| {
        assert (order + [t])[..k] == order[..k];
      } else {
        assert (order + [t])[..k] == order + [t];
      }
    }
  }

  lemma PopFrame(g: seq<GasBlock>, visited: seq<bool>, order: seq<nat>, stack: seq<DfsFrame>)
    requires SearchState(g, visited, order, stack) && |stack| > 0
    requires stack[|stack| - 1].succIndex == |g[stack[|stack| - 1].node].succs|
    ensures SearchState(g, visited, order + [stack[|stack| - 1].node], stack[..|stack| - 1])
  {
    var top, below := stack[|stack| - 1], Nodes(stack[..|stack| - 1]);
    var t := top.node;
    assert Nodes(stack) == below + [t];
    assert Scanned(g, visited, top);
    forall u: nat, v: nat | u in order + [t] && Edge(g, u, v)
      ensures v in order + [t] || v in below
    {
      if u == t {
        var k :| 0 <= k < |g[t].succs| && g[t].succs[k] == v;
        assert visited[v];
      }
    }
    FinishTop(g, order, below, t);
    PopBookkeeping(g, visited, order, below, t);
    SettledFromStack(g, order + [t], below);
    PrefixesExtend(g, order, t);
  }

  /** First pass: depth-first search from every block, recording blocks as they finish. */
  method FinishOrder(g: seq<GasBlock>) returns (order: seq<nat>)
    ensures FinishingOrder(g, order)
  {
    hide SearchState, Settled, Scanned;
    var visited := seq(|g|, _ => false);
    order := [];
    var stack: seq<DfsFrame> := [];
    EmptySearch(g, visited);
    var start := 0;
    while start < |g|
      invariant 0 <= start <= |g| && stack == [] && |visited| == |g|
      invariant SearchState(g, visited, order, stack)
      invariant forall v :: 0 <= v < start ==> visited[v]
    {
      if !visited[start] {
        PushFrame(g, visited, order, stack, start);
        stack := stack + [DfsFrame(start, 0)];
        visited := visited[start := true];
        while |stack| > 0
          invariant |visited| == |g| && SearchState(g, visited, order, stack)
          invariant forall v :: 0 <= v <= start ==> visited[v]
          decreases Unvisited(visited), |stack|
        {
          visited, order, stack := SearchStep(g, visited, order, stack);
        }
      }
      start := start + 1;
    }
    SearchFinished(g, visited, order);
  }

  /** Blocks not yet visited. */
  ghost function Unvisited(visited: seq<bool>): set<nat> {
    set v: nat | v < |visited| && !visited[v]
  }

  lemma EmptySearch(g: seq<GasBlock>, visited: seq<bool>)
    requires |visited| == |g| && forall v :: 0 <= v < |g| ==> !visited[v]
    ensures SearchState(g, visited, [], [])
  {
    assert Nodes([]) == [];
  }

  lemma SearchFinished(g: seq<GasBlock>, visited: seq<bool>, order: seq<nat>)
    requires SearchState(g, visited, order, []) && forall v :: 0 <= v < |g| ==> visited[v]
    ensures FinishingOrder(g, order)
  {
  }

  /** Advance the top frame to its next unvisited successor, or finish it. */
  method SearchStep(g: seq<GasBlock>, visited: seq<bool>, order: seq<nat>, stack: seq<DfsFrame>)
    returns (visited': seq<bool>, order': seq<nat>, stack': seq<DfsFrame>)
    requires SearchState(g, visited, order, stack) && |stack| > 0
    ensures |visited'| == |g| && SearchState(g, visited', order', stack')
    ensures forall v :: 0 <= v < |g| && visited[v] ==> visited'[v]
    ensures Unvisited(visited') < Unvisited(visited) || (visited' == visited && |stack'| < |stack|)
  {
    hide Settled, SettledOrStacked, PrefixesSettled, FinishedClosed, IsPath, Distinct;
    visited', order', stack' := visited, order, stack;
    var last := |stack| - 1;
    while true
      invariant visited' == visited && order' == order && |stack'| == |stack|
      invariant SearchState(g, visited, order, stack')
      decreases |g[stack'[last].node].succs| - stack'[last].succIndex
    {
      var frame := stack'[last];
      assert Scanned(g, visited, frame);
      if frame.succIndex == |g[frame.node].succs| {
        PopFrame(g, visited, order, stack');
        order' := order + [frame.node];
        stack' := stack'[..last];
        return;
      }
      var succ := g[frame.node].succs[frame.succIndex];
      if succ < |g| && !visited[succ] {
        PushFrame(g, visited, order, stack', succ);
        assert succ in Unvisited(visited);
        visited' := visited[succ := true];
        var pushed := stack' + [DfsFrame(succ, 0)];
        assert pushed[..last + 1] == stack';
        assert Unvisited(visited') == Unvisited(visited) - {succ};
        AdvanceBelow(g, visited', order, pushed, last);
        stack' := pushed[last := frame.(succIndex := frame.succIndex + 1)];
        return;
      }
      AdvanceBelow(g, visited, order, stack', last);
      stack' := stack'[last := frame.(succIndex := frame.succIndex + 1)];
    }
  }

  lemma AdvanceBelow(g: seq<GasBlock>, visited: seq<bool>, order: seq<nat>, stack: seq<DfsFrame>, i: nat)
    requires SearchState(g, visited, order, stack) && i < |stack|
    requires stack[i].succIndex < |g[stack[i].node].succs|
    requires var succ := g[stack[i].node].succs[stack[i].succIndex]; succ < |g| ==> visited[succ]
    ensures SearchState(g, visited, order, stack[i := stack[i].(succIndex := stack[i].succIndex + 1)])
  {
    assert Scanned(g, visited, stack[i]);
    assert Nodes(stack[i := stack[i].(succIndex := stack[i].succIndex + 1)]) == Nodes(stack);
  }

  /** The blocks already taken form whole components. */
  ghost predicate WholeComponents(g: seq<GasBlock>, taken: seq<bool>)
    requires |taken| == |g|
  {
    forall u: nat, v: nat :: u < |g| && v < |g| && taken[u] && SameComponent(g, u, v) ==> taken[v]
  }

  ghost predicate TakenFrom(taken: seq<bool>, order: seq<nat>, j: nat) {
    forall i :: j <= i < |order| ==> order[i] < |taken| && taken[order[i]]
  }

  /** Collect the unassigned blocks that reach `start` through unassigned blocks. */
  method CollectComponent(g: seq<GasBlock>, taken: seq<bool>, start: nat)
    returns (component: seq<nat>, taken': seq<bool>)
    requires WellFormed(g) && |taken| == |g| && start < |g| && !taken[start]
    ensures |taken'| == |g| && start in component && Distinct(component)
    ensures forall v :: v in component ==> v < |g| && !taken[v] && Reaches(g, v, start)
    ensures forall v :: 0 <= v < |g| ==> (taken'[v] <==> taken[v] || v in component)
    ensures ClosedUnless(g, taken', component)
  {
    hide Reaches, WellFormed, Unvisited, ClosedUnless;
    component := [];
    var stack: seq<nat> := [start];
    taken' := taken[start := true];
    ReachesSelf(g, start);
    assert ClosedUnless(g, taken', []) by { NothingToClose(g, taken'); }
    while |stack| > 0
      invariant CollectState(g, taken, taken', component, stack, start)
      decreases Unvisited(taken'), |stack|
    {
      var node := stack[|stack| - 1];
      assert node in stack;
      ghost var rest := stack[..|stack| - 1];
      assert stack == rest + [node];
      stack := stack[..|stack| - 1];
      ghost var todo, height := Unvisited(taken'), |stack|;
      MoveTop(g, taken, taken', component, rest, node, start);
      component := component + [node];
      var i := 0;
      while i < |g[node].preds|
        invariant 0 <= i <= |g[node].preds| && node < |g|
        invariant Collecting(g, taken, taken', component, stack, start)
        invariant ClosedUnless(g, taken', component[..|component| - 1])
        invariant |component| > 0 && component[|component| - 1] == node
        invariant forall k :: 0 <= k < i && g[node].preds[k] < |g| ==> taken'[g[node].preds[k]]
        invariant Unvisited(taken') <= todo && (Unvisited(taken') == todo ==> |stack| == height)
      {
        var pred := g[node].preds[i];
        if pred < |g| && !taken'[pred] {
          PredReaches(g, pred, node, start);
          AddPred(g, taken, taken', component, stack, pred, start);
          taken' := taken'[pred := true];
          stack := stack + [pred];
        }
        i := i + 1;
      }
      PredsTaken(g, taken', component, node);
    }
  }

  /** Assigned blocks are the old ones, the collected ones and the ones still on the worklist. */
  ghost predicate Collecting(
    g: seq<GasBlock>, before: seq<bool>, taken: seq<bool>, component: seq<nat>, stack: seq<nat>, start: nat)
  {
    && |before| == |taken| == |g|
    && (forall v: nat :: v in component || v in stack ==> v < |g| && !before[v] && Reaches(g, v, start))
    && (forall v: nat :: v < |g| ==> (taken[v] <==> before[v] || v in component || v in stack))
    && Distinct(component) && Distinct(stack) && (forall v :: v in stack ==> v !in component)
    && (start in component || start in stack)
  }

  ghost predicate ClosedUnless(g: seq<GasBlock>, taken: seq<bool>, component: seq<nat>)
    requires |taken| == |g|
  {
    forall u: nat, v: nat :: v in component && Edge(g, u, v) ==> taken[u]
  }

  ghost predicate CollectState(
    g: seq<GasBlock>, before: seq<bool>, taken: seq<bool>, component: seq<nat>, stack: seq<nat>, start: nat)
  {
    Collecting(g, before, taken, component, stack, start) && ClosedUnless(g, taken, component)
  }

  lemma MoveTop(
    g: seq<GasBlock>, before: seq<bool>, taken: seq<bool>, component: seq<nat>, rest: seq<nat>, node: nat, start: nat)
    requires Collecting(g, before, taken, component, rest + [node], start)
    ensures Collecting(g, before, taken, component + [node], rest, start)
  {
    hide Reaches;
    var stack := rest + [node];
    assert forall v :: v in stack <==> v in rest || v == node;
    assert stack[|rest|] == node && forall i :: 0 <= i < |rest| ==> stack[i] == rest[i];
    assert node in stack && node !in component && node !in rest;
  }

  lemma AddPred(
    g: seq<GasBlock>, before: seq<bool>, taken: seq<bool>, component: seq<nat>, stack: seq<nat>, pred: nat, start: nat)
    requires Collecting(g, before, taken, component, stack, start)
    requires pred < |g| && !taken[pred] && Reaches(g, pred, start)
    ensures Collecting(g, before, taken[pred := true], component, stack + [pred], start)
    ensures Unvisited(taken[pred := true]) < Unvisited(taken)
    ensures forall c :: ClosedUnless(g, taken, c) ==> ClosedUnless(g, taken[pred := true], c)
  {
    hide Reaches;
    assert pred in Unvisited(taken);
    assert forall v :: v in stack + [pred] <==> v in stack || v == pred;
    assert pred !in stack && pred !in component;
  }

  lemma NothingToClose(g: seq<GasBlock>, taken: seq<bool>)
    requires |taken| == |g|
    ensures ClosedUnless(g, taken, [])
  {
  }

  lemma PredReaches(g: seq<GasBlock>, pred: nat, node: nat, start: nat)
    requires WellFormed(g) && node < |g| && pred in g[node].preds && Reaches(g, node, start)
    ensures Reaches(g, pred, start)
  {
    ReachesEdge(g, pred, node);
    ReachesTransitive(g, pred, node, start);
  }

  lemma PredsTaken(g: seq<GasBlock>, taken: seq<bool>, component: seq<nat>, node: nat)
    requires WellFormed(g) && |taken| == |g| && node < |g|
    requires |component| > 0 && component[|component| - 1] == node
    requires ClosedUnless(g, taken, component[..|component| - 1])
    requires forall k :: 0 <= k < |g[node].preds| && g[node].preds[k] < |g| ==> taken[g[node].preds[k]]
    ensures ClosedUnless(g, taken, component)
  {
    forall u: nat, v: nat | v in component && Edge(g, u, v)
      ensures taken[u]
    {
      if v == node {
        var k :| 0 <= k < |g[node].preds| && g[node].preds[k] == u;
      } else {
        assert v in component[..|component| - 1];
      }
    }
  }

  /** What the second pass collects from the last unassigned block of the order is its component. */
  lemma CollectedIsComponent(
    g: seq<GasBlock>, order: seq<nat>, j: nat, taken: seq<bool>, component: seq<nat>, taken': seq<bool>)
    requires FinishingOrder(g, order) && j < |order| && |taken| == |taken'| == |g|
    requires WholeComponents(g, taken) && TakenFrom(taken, order, j + 1)
    requires order[j] in component
    requires forall v :: v in component ==> v < |g| && !taken[v] && Reaches(g, v, order[j])
    requires forall v :: 0 <= v < |g| ==> (taken'[v] <==> taken[v] || v in component)
    requires ClosedUnless(g, taken', component)
    ensures forall v :: v in component <==> SameComponent(g, v, order[j])
  {
    var root := order[j];
    forall v | v in component
      ensures SameComponent(g, v, root)
    {
      ReachesBack(g, order, j, taken, v);
    }
    forall v | SameComponent(g, v, root)
      ensures v in component
    {
      if v !in component {
        var p :| PathFromTo(g, p, v, root);
        PathInRange(g, p, 0);
        var outside := set u: nat | u < |g| && u !in component;
        var k := PathLeavesSet(g, p, outside);
        PathInRange(g, p, k + 1);
        assert taken[p[k]];
        PathReaches(g, p, 0, k);
        PathReaches(g, p, k, |p| - 1);
        ReachesTransitive(g, root, v, p[k]);
        assert SameComponent(g, p[k], root);
        assert false;
      }
    }
  }

  /** A block that reaches the root is reached by it: its settled prefix leaves no other partner. */
  lemma ReachesBack(g: seq<GasBlock>, order: seq<nat>, j: nat, taken: seq<bool>, v: nat)
    requires FinishingOrder(g, order) && j < |order| && |taken| == |g|
    requires WholeComponents(g, taken) && TakenFrom(taken, order, j + 1)
    requires v < |g| && !taken[v] && Reaches(g, v, order[j])
    ensures SameComponent(g, v, order[j])
  {
    var root := order[j];
    if v == root {
      ReachesSelf(g, v);
    } else {
      assert v in order;
      var i :| 0 <= i < |order| && order[i] == v;
      assert order[..j][i] == v;
      assert AllSettled(g, order[..j]) && Settled(g, order[..j], v);
      assert root !in order[..j];
      var s: nat :| s !in order[..j] && SameComponent(g, v, s);
      ReachesInRange(g, v, s);
      assert s in order;
      var m :| 0 <= m < |order| && order[m] == s;
      if m > j {
        assert SameComponent(g, s, v);
      }
    }
  }

  /** A block is on a cycle exactly when its component has another block or it has a self edge. */
  lemma OnCycleByComponent(g: seq<GasBlock>, component: seq<nat>, root: nat, v: nat)
    requires Distinct(component) && v in component
    requires forall u :: u in component <==> SameComponent(g, u, root)
    ensures OnCycle(g, v) <==> |component| > 1 || Edge(g, v, v)
  {
    if |component| > 1 {
      var i :| 0 <= i < |component| && component[i] == v;
      var w := component[if i == 0 then 1 else 0];
      assert w != v && w in component;
      SameComponentTransitive(g, v, root, w);
      var p :| PathFromTo(g, p, v, w);
      assert Edge(g, p[0], p[0 + 1]);
      PathReaches(g, p, 1, |p| - 1);
      ReachesTransitive(g, p[1], w, v);
    } else if OnCycle(g, v) {
      var x :| Edge(g, v, x) && Reaches(g, x, v);
      ReachesEdge(g, v, x);
      SameComponentTransitive(g, x, v, root);
      assert component == [v] by { assert component[0] == v; }
    } else if Edge(g, v, v) {
      ReachesSelf(g, v);
    }
  }

  method MarkAll(marks: seq<bool>, ids: seq<nat>) returns (marks': seq<bool>)
    requires forall v :: v in ids ==> v < |marks|
    ensures |marks'| == |marks| && forall v :: 0 <= v < |marks| ==> (marks'[v] <==> marks[v] || v in ids)
  {
    marks' := marks;
    var i := 0;
    while i < |ids|
      invariant 0 <= i <= |ids| && |marks'| == |marks|
      invariant forall v :: 0 <= v < |marks| ==> (marks'[v] <==> marks[v] || v in ids[..i])
    {
      assert ids[i] in ids;
      marks' := marks'[ids[i] := true];
      i := i + 1;
    }
    assert ids[..i] == ids;
  }

  /**
   The two-pass computation is exact: a block is marked if and only if it can reach itself
   by at least one edge.
   */
  method ComputeInCycle(g: seq<GasBlock>) returns (inCycle: seq<bool>)
    requires WellFormed(g)
    ensures |inCycle| == |g|
    ensures forall v :: 0 <= v < |g| ==> (inCycle[v] <==> OnCycle(g, v))
  {
    hide WellFormed, Settled, OnCycle, SameComponent, Reaches;
    var order := FinishOrder(g);
    inCycle := seq(|g|, _ => false);
    var taken := seq(|g|, _ => false);
    var j := |order|;
    while j > 0
      invariant 0 <= j <= |order| && |inCycle| == |taken| == |g|
      invariant WholeComponents(g, taken)
      invariant TakenFrom(taken, order, j)
      invariant forall v :: 0 <= v < |g| ==> if taken[v] then inCycle[v] == OnCycle(g, v) else !inCycle[v]
    {
      j := j - 1;
      var start := order[j];
      assert start in order;
      if !taken[start] {
        var component, taken' := CollectComponent(g, taken, start);
        CollectedIsComponent(g, order, j, taken, component, taken');
        KeepsWhole(g, taken, component, taken', start);
        var cyclic := |component| > 1 || start in g[start].succs;
        forall v | v in component
          ensures OnCycle(g, v) == cyclic
        {
          OnCycleByComponent(g, component, start, v);
        }
        if cyclic {
          inCycle := MarkAll(inCycle, component);
        }
        taken := taken';
      }
    }
    forall v | 0 <= v < |g|
      ensures taken[v]
    {
      assert v in order;
    }
  }

  lemma KeepsWhole(g: seq<GasBlock>, taken: seq<bool>, component: seq<nat>, taken': seq<bool>, root: nat)
    requires |taken| == |taken'| == |g| && WholeComponents(g, taken)
    requires forall v :: 0 <= v < |g| ==> (taken'[v] <==> taken[v] || v in component)
    requires forall v :: v in component <==> SameComponent(g, v, root)
    ensures WholeComponents(g, taken')
  {
    forall u: nat, v: nat | u < |g| && v < |g| && taken'[u] && SameComponent(g, u, v)
      ensures taken'[v]
    {
      if u in component {
        SameComponentTransitive(g, v, u, root);
      }
    }
  }
}
