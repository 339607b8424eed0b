/**
 Splitting of critical edges: every edge from a block with several successors to a block
 with several predecessors gets an empty block of its own.

 `SplitOf` relates the graph before and after. From it follow that no critical edge is
 left and that paths before and after correspond one to one, with equal cost.
 */
module CriticalEdges {
  import opened Basics
  import opened GasBlocks
  import opened ControlFlow

  /** Add an edge to both adjacency lists unless it is there; ignore ids out of range. */
  function AddEdge(g: seq<GasBlock>, from: nat, to: nat): (r: seq<GasBlock>)
    ensures |r| == |g|
  {
    if from >= |g| || to >= |g| then g
    else
      var g1 := if to in g[from].succs then g else g[from := g[from].(succs := g[from].succs + [to])];
      if from in g1[to].preds then g1 else g1[to := g1[to].(preds := g1[to].preds + [from])]
  }

  function Remove(s: seq<nat>, x: nat): (r: seq<nat>)
    ensures forall y :: y in r <==> y in s && y != x
  {
    if s == [] then []
    else
      assert forall y :: y in s <==> y == s[0] || y in s[1..];
      if s[0] == x then Remove(s[1..], x) else [s[0]] + Remove(s[1..], x)
  }

  lemma {:induction false} RemoveDistinct(s: seq<nat>, x: nat)
    requires Distinct(s)
    ensures Distinct(Remove(s, x)) && |Remove(s, x)| == if x in s then |s| - 1 else |s|
  {
    if s != [] {
      assert forall i, j :: 0 <= i < j < |s[1..]| ==> s[1..][i] == s[i + 1] && s[1..][j] == s[j + 1];
      RemoveDistinct(s[1..], x);
      assert forall y :: y in s <==> y == s[0] || y in s[1..];
      assert s[0] !in s[1..];
    }
  }

  lemma AppendDistinct(s: seq<nat>, x: nat)
    requires Distinct(s) && x !in s
    ensures Distinct(s + [x])
  {
  }

  /** `g'` is `g` with `to` appended to the successors of `from`, and `from` to the predecessors of `to`. */
  ghost predicate Appended(g: seq<GasBlock>, g': seq<GasBlock>, from: nat, to: nat) {
    && from < |g| && to < |g| == |g'|
    && forall u: nat :: u < |g| ==>
         g'[u] == g[u].(succs := if u == from then g[u].succs + [to] else g[u].succs,
                        preds := if u == to then g[u].preds + [from] else g[u].preds)
  }

  lemma AddEdgeAppends(g: seq<GasBlock>, from: nat, to: nat)
    requires WellFormed(g) && from < |g| && to < |g| && to !in g[from].succs
    ensures Appended(g, AddEdge(g, from, to), from, to)
  {
    assert from !in g[to].preds;
  }

  lemma AppendedLists(g: seq<GasBlock>, g': seq<GasBlock>, from: nat, to: nat)
    requires Appended(g, g', from, to)
    ensures forall u: nat, v: nat :: u < |g| ==> (v in g'[u].succs <==> v in g[u].succs || (u == from && v == to))
    ensures forall u: nat, v: nat :: v < |g| ==> (u in g'[v].preds <==> u in g[v].preds || (u == from && v == to))
    ensures forall u: nat :: u < |g| ==> SameBlock(g[u], g'[u])
  {
  }

  lemma AppendedDistinct(g: seq<GasBlock>, g': seq<GasBlock>, from: nat, to: nat)
    requires WellFormed(g) && Appended(g, g', from, to) && to !in g[from].succs
    ensures forall u: nat :: u < |g| ==> Distinct(g'[u].succs) && Distinct(g'[u].preds)
  {
    assert from !in g[to].preds;
    AppendDistinct(g[from].succs, to);
    AppendDistinct(g[to].preds, from);
    hide Distinct;
  }

  lemma AppendedKeeps(g: seq<GasBlock>, g': seq<GasBlock>, from: nat, to: nat)
    requires WellFormed(g) && Appended(g, g', from, to) && to !in g[from].succs
    ensures WellFormed(g')
    ensures forall u: nat, v: nat :: Edge(g', u, v) <==> Edge(g, u, v) || (u == from && v == to)
    ensures forall u: nat :: u < |g| ==> SameBlock(g[u], g'[u])
  {
    AppendedLists(g, g', from, to);
    AppendedDistinct(g, g', from, to);
    assert |g'| == |g| && from < |g| && to < |g|;
    hide Distinct, Appended, SameBlock;
  }

  /** `AddEdge` keeps the lists transposed and adds just that edge. */
  lemma AddEdgeKeeps(g: seq<GasBlock>, from: nat, to: nat)
    requires WellFormed(g)
    ensures WellFormed(AddEdge(g, from, to))
    ensures forall u: nat, v: nat ::
              Edge(AddEdge(g, from, to), u, v) <==> Edge(g, u, v) || (u == from && v == to && u < |g| && v < |g|)
    ensures forall u: nat :: u < |g| ==> SameBlock(g[u], AddEdge(g, from, to)[u])
  {
    if from < |g| && to < |g| {
      assert to in g[from].succs <==> from in g[to].preds;
      hide WellFormed;
      if to !in g[from].succs {
        AddEdgeAppends(g, from, to);
        AppendedKeeps(g, AddEdge(g, from, to), from, to);
      }
    }
  }

  /** Equal in everything but the adjacency lists. */
  predicate SameBlock(a: GasBlock, b: GasBlock) {
    b.(succs := a.succs, preds := a.preds) == a
  }

  predicate Critical(g: seq<GasBlock>, u: nat, v: nat) {
    Edge(g, u, v) && |g[u].succs| > 1 && |g[v].preds| > 1
  }

  /** The list of critical edges, in the order the source visits them. */
  method FindCriticalEdges(g: seq<GasBlock>) returns (edges: seq<(nat, nat)>)
    requires WellFormed(g)
    ensures forall u: nat, v: nat :: (u, v) in edges <==> Critical(g, u, v)
    ensures Distinct(edges)
  {
    edges := [];
    var from := 0;
    while from < |g|
      invariant 0 <= from <= |g|
      invariant forall u: nat, v: nat :: (u, v) in edges <==> u < from && Critical(g, u, v)
      invariant Distinct(edges)
    {
      if |g[from].succs| > 1 {
        ghost var before := edges;
        var i := 0;
        while i < |g[from].succs|
          invariant 0 <= i <= |g[from].succs|
          invariant forall u: nat, v: nat :: (u, v) in edges <==>
                      (u, v) in before || (u == from && v in g[from].succs[..i] && Critical(g, u, v))
          invariant Distinct(edges)
        {
          var to := g[from].succs[i];
          assert Distinct(g[from].succs) && to !in g[from].succs[..i];
          assert g[from].succs[..i + 1] == g[from].succs[..i] + [to];
          if to < |g| && |g[to].preds| > 1 {
            edges := edges + [(from, to)];
          }
          i := i + 1;
        }
        assert g[from].succs[..i] == g[from].succs;
      }
      from := from + 1;
    }
  }

  /** The empty block put on an edge out of a block that ends at `end`. */
  function EmptyBlock(end: nat): (b: GasBlock)
    ensures b.cost == 0 && b.start == b.end
  {
    GasBlock(end, end, end, UINT32_MAX, 0, 0, 0, [], [])
  }

  /** Replace the edge `from -> to` by `from -> new -> to`. */
  function SplitEdge(g: seq<GasBlock>, from: nat, to: nat): (r: seq<GasBlock>)
    requires from < |g| && to < |g|
    ensures |r| == |g| + 1
  {
    var g1 := g[from := g[from].(succs := Remove(g[from].succs, to))];
    var g2 := g1[to := g1[to].(preds := Remove(g1[to].preds, from))];
    var g3 := g2 + [EmptyBlock(g[from].end)];
    AddEdge(AddEdge(g3, from, |g|), |g|, to)
  }

  /** What splitting one edge does, block by block. */
  lemma SplitEdgeBlocks(g: seq<GasBlock>, from: nat, to: nat)
    requires WellFormed(g) && Edge(g, from, to)
    ensures var r := SplitEdge(g, from, to);
            && r[|g|] == EmptyBlock(g[from].end).(succs := [to], preds := [from])
            && forall u: nat :: u < |g| ==>
                 && SameBlock(g[u], r[u])
                 && r[u].succs == (if u == from then Remove(g[u].succs, to) + [|g|] else g[u].succs)
                 && r[u].preds == (if u == to then Remove(g[u].preds, from) + [|g|] else g[u].preds)
  {
    assert |g| !in g[from].succs;
    assert |g| !in g[to].preds;
  }

  /** Original blocks keep everything but their neighbours, and keep how many they have. */
  ghost predicate SameOriginals(g: seq<GasBlock>, g': seq<GasBlock>)
    requires |g| <= |g'|
  {
    forall u: nat :: u < |g| ==> SameBlock(g[u], g'[u]) && SameDegree(g[u], g'[u])
  }

  /** Block `|g| + k` is empty and sits on edge `splits[k]`. */
  ghost predicate EmptyOnSplits(g: seq<GasBlock>, g': seq<GasBlock>, splits: seq<(nat, nat)>)
    requires |g'| == |g| + |splits|
  {
    forall n: nat :: |g| <= n < |g'| ==> EmptyOn(g, g'[n], splits[n - |g|])
  }

  ghost predicate EmptyOn(g: seq<GasBlock>, b: GasBlock, e: (nat, nat)) {
    Edge(g, e.0, e.1) && b == EmptyBlock(g[e.0].end).(succs := [e.1], preds := [e.0])
  }

  /** Edges of `g'` out of original blocks. */
  ghost predicate SplitEdges(g: seq<GasBlock>, g': seq<GasBlock>, splits: seq<(nat, nat)>)
    requires |g'| == |g| + |splits|
  {
    && (forall u: nat, v: nat :: u < |g| && v < |g| ==> (Edge(g', u, v) <==> Edge(g, u, v) && (u, v) !in splits))
    && (forall u: nat, n: nat :: u < |g| <= n < |g'| ==> (Edge(g', u, n) <==> u == splits[n - |g|].0))
  }

  /**
   `g'` is `g` with each edge in `splits` replaced by a path through an empty block of its
   own.
   */
  ghost predicate SplitOf(g: seq<GasBlock>, g': seq<GasBlock>, splits: seq<(nat, nat)>) {
    && |g'| == |g| + |splits| && Distinct(splits)
    && SameOriginals(g, g') && EmptyOnSplits(g, g', splits) && SplitEdges(g, g', splits)
  }

  predicate SameDegree(a: GasBlock, b: GasBlock) {
    |a.succs| == |b.succs| && |a.preds| == |b.preds|
  }

  lemma SplitNothing(g: seq<GasBlock>)
    requires WellFormed(g)
    ensures SplitOf(g, g, [])
  {
  }

  /** Edges after splitting `from -> to`: the others, and the two through the new block. */
  predicate EdgeAfterSplit(g: seq<GasBlock>, from: nat, to: nat, u: nat, v: nat) {
    (Edge(g, u, v) && (u, v) != (from, to)) || (u == from && v == |g|) || (u == |g| && v == to)
  }

  lemma SplitEdgeMembers(g: seq<GasBlock>, from: nat, to: nat, u: nat, v: nat)
    requires WellFormed(g) && Edge(g, from, to)
    ensures u <= |g| ==> (v in SplitEdge(g, from, to)[u].succs <==> EdgeAfterSplit(g, from, to, u, v))
    ensures v <= |g| ==> (u in SplitEdge(g, from, to)[v].preds <==> EdgeAfterSplit(g, from, to, u, v))
  {
    SplitEdgeBlocks(g, from, to);
    hide SplitEdge, Distinct;
  }

  lemma SplitEdgeLists(g: seq<GasBlock>, from: nat, to: nat, u: nat)
    requires WellFormed(g) && Edge(g, from, to) && u <= |g|
    ensures Distinct(SplitEdge(g, from, to)[u].succs) && Distinct(SplitEdge(g, from, to)[u].preds)
    ensures u < |g| ==> SameDegree(g[u], SplitEdge(g, from, to)[u])
  {
    SplitEdgeBlocks(g, from, to);
    hide SplitEdge;
    if u == from {
      RemoveDistinct(g[from].succs, to);
      AppendDistinct(Remove(g[from].succs, to), |g|);
    }
    if u == to {
      RemoveDistinct(g[to].preds, from);
      AppendDistinct(Remove(g[to].preds, from), |g|);
    }
  }

  lemma SplitEdgeWellFormed(g: seq<GasBlock>, from: nat, to: nat)
    requires WellFormed(g) && Edge(g, from, to)
    ensures WellFormed(SplitEdge(g, from, to))
    ensures forall u: nat, v: nat :: Edge(SplitEdge(g, from, to), u, v) <==> EdgeAfterSplit(g, from, to, u, v)
  {
    var r := SplitEdge(g, from, to);
    forall u: nat, v: nat
      ensures u < |r| ==> (v in r[u].succs <==> EdgeAfterSplit(g, from, to, u, v))
      ensures v < |r| ==> (u in r[v].preds <==> EdgeAfterSplit(g, from, to, u, v))
    {
      SplitEdgeMembers(g, from, to, u, v);
    }
    forall u: nat | u < |r|
      ensures Distinct(r[u].succs) && Distinct(r[u].preds)
    {
      SplitEdgeLists(g, from, to, u);
    }
    hide SplitEdge, WellFormed, Distinct;
    EdgesWithin(g, from, to);
    WellFormedFromEdges(g, r, from, to);
  }

  lemma EdgesWithin(g: seq<GasBlock>, from: nat, to: nat)
    requires WellFormed(g) && Edge(g, from, to)
    ensures forall u: nat, v: nat :: EdgeAfterSplit(g, from, to, u, v) ==> u <= |g| && v <= |g|
  {
  }

  lemma WellFormedFromEdges(g: seq<GasBlock>, r: seq<GasBlock>, from: nat, to: nat)
    requires |r| == |g| + 1
    requires forall u: nat, v: nat :: EdgeAfterSplit(g, from, to, u, v) ==> u <= |g| && v <= |g|
    requires forall u: nat, v: nat :: u < |r| ==> (v in r[u].succs <==> EdgeAfterSplit(g, from, to, u, v))
    requires forall u: nat, v: nat :: v < |r| ==> (u in r[v].preds <==> EdgeAfterSplit(g, from, to, u, v))
    requires forall u: nat :: u < |r| ==> Distinct(r[u].succs) && Distinct(r[u].preds)
    ensures WellFormed(r)
    ensures forall u: nat, v: nat :: Edge(r, u, v) <==> EdgeAfterSplit(g, from, to, u, v)
  {
    hide EdgeAfterSplit, Distinct;
  }

  lemma SplitEdgesExtend(
    g: seq<GasBlock>, cur: seq<GasBlock>, r: seq<GasBlock>, splits: seq<(nat, nat)>, from: nat, to: nat)
    requires |cur| == |g| + |splits| && |r| == |cur| + 1 && from < |g| && to < |g|
    requires SplitEdges(g, cur, splits)
    requires forall u: nat, v: nat :: Edge(r, u, v) <==> EdgeAfterSplit(cur, from, to, u, v)
    ensures SplitEdges(g, r, splits + [(from, to)])
  {
    var splits' := splits + [(from, to)];
    assert forall e :: e in splits' <==> e in splits || e == (from, to);
    assert forall u: nat, v: nat :: u < |g| && v < |cur| ==> (Edge(r, u, v) <==> Edge(cur, u, v) && (u, v) != (from, to));
    assert forall u: nat :: u < |g| ==> (Edge(r, u, |cur|) <==> u == from);
    hide Edge;
  }

  lemma BlocksExtend(
    g: seq<GasBlock>, cur: seq<GasBlock>, splits: seq<(nat, nat)>, from: nat, to: nat)
    requires WellFormed(cur) && |cur| == |g| + |splits| && Edge(g, from, to) && Edge(cur, from, to)
    requires SameOriginals(g, cur) && EmptyOnSplits(g, cur, splits)
    ensures SameOriginals(g, SplitEdge(cur, from, to))
    ensures EmptyOnSplits(g, SplitEdge(cur, from, to), splits + [(from, to)])
  {
    var r, splits' := SplitEdge(cur, from, to), splits + [(from, to)];
    SplitEdgeBlocks(cur, from, to);
    forall u: nat | u < |cur|
      ensures SameDegree(cur[u], r[u])
    {
      SplitEdgeLists(cur, from, to, u);
    }
    hide SplitEdge, WellFormed, Distinct;
    forall n: nat | |g| <= n < |r|
      ensures EmptyOn(g, r[n], splits'[n - |g|])
    {
      if n < |cur| {
        assert EmptyOn(g, cur[n], splits[n - |g|]) && r[n] == cur[n];
      }
    }
  }

  /** One more edge split. */
  lemma SplitOneMore(g: seq<GasBlock>, cur: seq<GasBlock>, splits: seq<(nat, nat)>, from: nat, to: nat)
    requires WellFormed(g) && WellFormed(cur) && SplitOf(g, cur, splits)
    requires Edge(g, from, to) && (from, to) !in splits
    ensures Edge(cur, from, to)
    ensures WellFormed(SplitEdge(cur, from, to))
    ensures SplitOf(g, SplitEdge(cur, from, to), splits + [(from, to)])
  {
    SplitEdgeWellFormed(cur, from, to);
    SplitEdgesExtend(g, cur, SplitEdge(cur, from, to), splits, from, to);
    BlocksExtend(g, cur, splits, from, to);
  }

  /** The critical edges whose source block does not end the code. */
  predicate Splittable(g: seq<GasBlock>, codeSize: nat, e: (nat, nat)) {
    Critical(g, e.0, e.1) && g[e.0].end < codeSize
  }

  /**
   Insert an empty block on every critical edge whose source block ends inside the code.
   `changed` tells whether any was inserted.
   */
  method SplitCriticalEdges(g: seq<GasBlock>, codeSize: nat)
    returns (g': seq<GasBlock>, changed: bool, ghost splits: seq<(nat, nat)>)
    requires WellFormed(g)
    ensures WellFormed(g') && SplitOf(g, g', splits)
    ensures forall e :: e in splits <==> Splittable(g, codeSize, e)
    ensures changed <==> |g'| > |g|
  {
    hide WellFormed, SplitEdge, SplitOf, Critical;
    var edges := FindCriticalEdges(g);
    g', changed, splits := g, false, [];
    SplitNothing(g);
    var i := 0;
    while i < |edges|
      invariant 0 <= i <= |edges| && WellFormed(g') && SplitOf(g, g', splits) && |g'| == |g| + |splits|
      invariant forall e :: e in splits <==> e in edges[..i] && Splittable(g, codeSize, e)
      invariant changed <==> |splits| > 0
    {
      var (from, to) := edges[i];
      assert edges[i] in edges;
      CriticalIsEdge(g, from, to);
      SplitKeepsEnd(g, g', splits, from);
      assert edges[..i + 1] == edges[..i] + [edges[i]];
      assert (from, to) !in edges[..i];
      if g'[from].end < codeSize {
        SplitOneMore(g, g', splits, from, to);
        g' := SplitEdge(g', from, to);
        splits := splits + [(from, to)];
        changed := true;
      }
      i := i + 1;
    }
    assert edges[..i] == edges;
  }

  lemma CriticalIsEdge(g: seq<GasBlock>, u: nat, v: nat)
    requires Critical(g, u, v)
    ensures Edge(g, u, v)
  {
  }

  lemma SplitKeepsEnd(g: seq<GasBlock>, g': seq<GasBlock>, splits: seq<(nat, nat)>, u: nat)
    requires SplitOf(g, g', splits) && u < |g|
    ensures u < |g'| && g'[u].end == g[u].end
  {
    assert SameBlock(g[u], g'[u]);
  }

  lemma NewBlockDegrees(g: seq<GasBlock>, g': seq<GasBlock>, splits: seq<(nat, nat)>, n: nat)
    requires SplitOf(g, g', splits) && |g| <= n < |g'|
    ensures |g'[n].succs| == |g'[n].preds| == 1
  {
    assert EmptyOn(g, g'[n], splits[n - |g|]);
  }

  /** After splitting, an edge is critical only if its source block reaches the end of the code. */
  lemma CriticalAfterSplit(g: seq<GasBlock>, g': seq<GasBlock>, splits: seq<(nat, nat)>, codeSize: nat, u: nat, v: nat)
    requires WellFormed(g') && SplitOf(g, g', splits) && forall e :: e in splits <==> Splittable(g, codeSize, e)
    requires Critical(g', u, v)
    ensures u < |g| && v < |g| && Critical(g, u, v) && g[u].end >= codeSize
  {
    if u >= |g| {
      NewBlockDegrees(g, g', splits, u);
    } else if v >= |g| {
      NewBlockDegrees(g, g', splits, v);
    } else {
      assert SameDegree(g[u], g'[u]) && SameDegree(g[v], g'[v]);
      assert (u, v) !in splits;
      assert !Splittable(g, codeSize, (u, v));
    }
  }

  /** No critical edge is left when every block with several successors ends inside the code. */
  lemma NoCriticalEdgeLeft(g: seq<GasBlock>, g': seq<GasBlock>, splits: seq<(nat, nat)>, codeSize: nat)
    requires WellFormed(g') && SplitOf(g, g', splits) && forall e :: e in splits <==> Splittable(g, codeSize, e)
    requires forall u :: 0 <= u < |g| && |g[u].succs| > 1 ==> g[u].end < codeSize
    ensures forall u: nat, v: nat :: !Critical(g', u, v)
  {
    forall u: nat, v: nat
      ensures !Critical(g', u, v)
    {
      if Critical(g', u, v) {
        CriticalAfterSplit(g, g', splits, codeSize, u, v);
      }
    }
  }

  /** `rest` preceded by the empty block on `u -> v`, if that edge was split. */
  function Via(g: seq<GasBlock>, splits: seq<(nat, nat)>, u: nat, v: nat, rest: seq<nat>): (q: seq<nat>) {
    if (u, v) in splits then [|g| + IndexOf(splits, (u, v))] + rest else rest
  }

  /** A path of the original graph in the split one: the empty blocks put back in. */
  function Expand(g: seq<GasBlock>, splits: seq<(nat, nat)>, p: seq<nat>): (q: seq<nat>)
    decreases |p|
  {
    if |p| <= 1 then p else [p[0]] + Via(g, splits, p[0], p[1], Expand(g, splits, p[1..]))
  }

  function IndexOf(splits: seq<(nat, nat)>, e: (nat, nat)): (k: nat)
    requires e in splits
    ensures k < |splits| && splits[k] == e
  {
    if splits[0] == e then 0 else 1 + IndexOf(splits[1..], e)
  }

  /** A path of the split graph in the original one: the empty blocks left out. */
  function Contract(g: seq<GasBlock>, q: seq<nat>): (p: seq<nat>) {
    if q == [] then [] else if q[0] < |g| then [q[0]] + Contract(g, q[1..]) else Contract(g, q[1..])
  }

  lemma TailPath(g: seq<GasBlock>, p: seq<nat>)
    requires IsPath(g, p) && |p| > 1
    ensures Edge(g, p[0], p[1]) && IsPath(g, p[1..])
  {
    assert Edge(g, p[0], p[0 + 1]);
    SubPath(g, p, 1, |p| - 1);
    assert p[1..|p| - 1 + 1] == p[1..];
  }

  lemma ConsPath(g: seq<GasBlock>, u: nat, p: seq<nat>)
    requires IsPath(g, p) && Edge(g, u, p[0])
    ensures IsPath(g, [u] + p)
  {
    var q := [u] + p;
    forall i | 0 <= i < |q| - 1
      ensures Edge(g, q[i], q[i + 1])
    {
      if i > 0 {
        assert Edge(g, p[i - 1], p[i - 1 + 1]);
      }
    }
  }

  /** The two steps that replace one original edge. */
  lemma EdgeThroughSplit(g: seq<GasBlock>, g': seq<GasBlock>, splits: seq<(nat, nat)>, u: nat, v: nat)
    requires SplitOf(g, g', splits) && (u, v) in splits
    ensures var n := |g| + IndexOf(splits, (u, v));
            n < |g'| && Edge(g', u, n) && Edge(g', n, v) && g'[n].cost == 0
  {
    var n := |g| + IndexOf(splits, (u, v));
    assert EmptyOn(g, g'[n], splits[n - |g|]);
  }

  lemma OriginalEdgeKept(g: seq<GasBlock>, g': seq<GasBlock>, splits: seq<(nat, nat)>, u: nat, v: nat)
    requires SplitOf(g, g', splits) && Edge(g, u, v) && (u, v) !in splits
    ensures Edge(g', u, v)
  {
  }

  /** One original edge in front of a split-graph path. */
  lemma ViaPath(g: seq<GasBlock>, g': seq<GasBlock>, splits: seq<(nat, nat)>, u: nat, v: nat, rest: seq<nat>)
    requires SplitOf(g, g', splits) && Edge(g, u, v) && |rest| > 0 && PathFromTo(g', rest, v, rest[|rest| - 1])
    ensures PathFromTo(g', [u] + Via(g, splits, u, v, rest), u, rest[|rest| - 1])
  {
    hide SplitOf, IndexOf;
    if (u, v) in splits {
      EdgeThroughSplit(g, g', splits, u, v);
      var n := |g| + IndexOf(splits, (u, v));
      ConsPath(g', n, rest);
      ConsPath(g', u, [n] + rest);
    } else {
      OriginalEdgeKept(g, g', splits, u, v);
      ConsPath(g', u, rest);
    }
  }

  /** Every original path expands to a path of the split graph with the same ends. */
  lemma {:induction false} ExpandIsPath(g: seq<GasBlock>, g': seq<GasBlock>, splits: seq<(nat, nat)>, p: seq<nat>)
    requires SplitOf(g, g', splits) && IsPath(g, p)
    ensures PathFromTo(g', Expand(g, splits, p), p[0], p[|p| - 1])
    decreases |p|
  {
    if |p| > 1 {
      hide SplitOf, Edge, Via;
      TailPath(g, p);
      ExpandIsPath(g, g', splits, p[1..]);
      ViaPath(g, g', splits, p[0], p[1], Expand(g, splits, p[1..]));
    }
  }

  lemma ContractCons(g: seq<GasBlock>, u: nat, q: seq<nat>)
    ensures Contract(g, [u] + q) == if u < |g| then [u] + Contract(g, q) else Contract(g, q)
  {
    assert ([u] + q)[1..] == q;
  }

  /** Contracting undoes expanding. */
  lemma {:induction false} ContractExpand(g: seq<GasBlock>, splits: seq<(nat, nat)>, p: seq<nat>)
    requires forall i :: 0 <= i < |p| ==> p[i] < |g|
    ensures Contract(g, Expand(g, splits, p)) == p
    decreases |p|
  {
    if p == [] {
    } else if |p| == 1 {
      ContractCons(g, p[0], []);
      assert p == [p[0]] + [];
    } else {
      var rest := Expand(g, splits, p[1..]);
      assert Expand(g, splits, p) == [p[0]] + Via(g, splits, p[0], p[1], rest);
      ContractExpand(g, splits, p[1..]);
      hide Contract, IndexOf, Expand;
      ContractCons(g, p[0], Via(g, splits, p[0], p[1], rest));
      if (p[0], p[1]) in splits {
        ContractCons(g, |g| + IndexOf(splits, (p[0], p[1])), rest);
      }
    }
  }

  /** Expanding changes no cost. */
  lemma {:induction false} ExpandCost(g: seq<GasBlock>, g': seq<GasBlock>, splits: seq<(nat, nat)>, p: seq<nat>)
    requires SplitOf(g, g', splits) && forall i :: 0 <= i < |p| ==> p[i] < |g|
    ensures PathSum(Costs(g'), Expand(g, splits, p)) == PathSum(Costs(g), p)
    decreases |p|
  {
    if |p| >= 1 {
      assert SameBlock(g[p[0]], g'[p[0]]);
      if |p| == 1 {
        assert p == [p[0]] + [];
        PathSumCons(Costs(g), p[0], []);
        PathSumCons(Costs(g'), p[0], []);
      } else {
        var rest := Expand(g, splits, p[1..]);
        assert Expand(g, splits, p) == [p[0]] + Via(g, splits, p[0], p[1], rest);
        ExpandCost(g, g', splits, p[1..]);
        assert PathSum(Costs(g), p) == At(Costs(g), p[0]) + PathSum(Costs(g), p[1..]);
        hide SplitOf, PathSum, Expand, IndexOf;
        PathSumCons(Costs(g'), p[0], Via(g, splits, p[0], p[1], rest));
        if (p[0], p[1]) in splits {
          EdgeThroughSplit(g, g', splits, p[0], p[1]);
          PathSumCons(Costs(g'), |g| + IndexOf(splits, (p[0], p[1])), rest);
        }
      }
    }
  }

  lemma UniqueIndex(splits: seq<(nat, nat)>, k: nat)
    requires Distinct(splits) && k < |splits|
    ensures IndexOf(splits, splits[k]) == k
  {
  }

  /** The first original step of a split-graph path: one edge, or two through an empty block. */
  lemma FirstStep(g: seq<GasBlock>, g': seq<GasBlock>, splits: seq<(nat, nat)>, q: seq<nat>) returns (rest: seq<nat>)
    requires SplitOf(g, g', splits) && IsPath(g', q) && |q| > 1 && q[0] < |g| && q[|q| - 1] < |g|
    ensures IsPath(g', rest) && rest[0] < |g| && rest[|rest| - 1] < |g| && |rest| < |q|
    ensures Edge(g, q[0], rest[0]) && q == [q[0]] + Via(g, splits, q[0], rest[0], rest)
    ensures Contract(g, q) == [q[0]] + Contract(g, rest)
  {
    hide SplitOf, Contract, IsPath, Edge, Via;
    TailPath(g', q);
    if q[1] < |g| {
      rest := q[1..];
      DirectStep(g, g', splits, q[0], rest);
    } else {
      TailPath(g', q[1..]);
      rest := q[2..];
      assert q[1..][1..] == rest;
      StepThroughEmpty(g, g', splits, q[0], q[1], rest);
      ContractCons(g, q[1], rest);
      assert [q[1]] + rest == q[1..];
    }
    ContractCons(g, q[0], q[1..]);
    assert [q[0]] + q[1..] == q;
  }

  lemma DirectStep(g: seq<GasBlock>, g': seq<GasBlock>, splits: seq<(nat, nat)>, u: nat, rest: seq<nat>)
    requires SplitOf(g, g', splits) && |rest| > 0 && u < |g| && rest[0] < |g| && Edge(g', u, rest[0])
    ensures Edge(g, u, rest[0]) && Via(g, splits, u, rest[0], rest) == rest
  {
  }

  lemma StepThroughEmpty(g: seq<GasBlock>, g': seq<GasBlock>, splits: seq<(nat, nat)>, u: nat, n: nat, rest: seq<nat>)
    requires SplitOf(g, g', splits) && |rest| > 0 && u < |g| <= n && Edge(g', u, n) && Edge(g', n, rest[0])
    ensures rest[0] < |g| && Edge(g, u, rest[0]) && Via(g, splits, u, rest[0], rest) == [n] + rest
  {
    hide IndexOf;
    assert EmptyOn(g, g'[n], splits[n - |g|]);
    UniqueIndex(splits, n - |g|);
  }

  /** Every split-graph path between original blocks is the expansion of an original path. */
  lemma {:induction false} ContractPath(g: seq<GasBlock>, g': seq<GasBlock>, splits: seq<(nat, nat)>, q: seq<nat>)
    requires SplitOf(g, g', splits) && IsPath(g', q) && q[0] < |g| && q[|q| - 1] < |g|
    ensures IsPath(g, Contract(g, q)) && Contract(g, q)[0] == q[0]
    ensures Expand(g, splits, Contract(g, q)) == q
    decreases |q|
  {
    if |q| == 1 {
      ContractCons(g, q[0], []);
      assert q == [q[0]] + [];
    } else {
      var rest := FirstStep(g, g', splits, q);
      ContractPath(g, g', splits, rest);
      hide SplitOf, Contract, Via;
      var p := Contract(g, rest);
      ConsPath(g, q[0], p);
      assert ([q[0]] + p)[1..] == p;
    }
  }
}
