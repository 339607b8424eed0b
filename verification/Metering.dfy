/**
 Shifting of metered gas from blocks to their predecessors.

 A block whose successors can only be entered through it may charge what all of them have
 in common. The invariant is a balance: `paid[v]` is what has been charged at or before
 `v` for blocks after it, and along every edge `metered + paid in = cost + paid out`.

 The source adds in 64 bits. The balance is kept by an unbounded `ideal` metering of which
 the stored one is the remainder. The two are equal at the blocks where no addition has
 wrapped, and gas is conserved if and only if they are equal at every reachable block.
 */
module Metering {
  import opened Basics
  import opened Bytecode
  import opened PushDecoding
  import opened GasBlocks
  import opened ControlFlow
  import opened Dominators
  import opened CriticalEdges

  const UINT64_MAX: nat := TWO64 - 1

  /** Predecessors, counting the program start as one more for the block at offset 0. */
  function EffectivePredCount(b: GasBlock): (n: nat) {
    |b.preds| + if b.start == 0 then 1 else 0
  }

  /** A successor that takes part in an update of `node`. */
  predicate Eligible(g: seq<GasBlock>, backEdges: seq<seq<nat>>, mask: set<nat>, node: nat, succ: nat)
    requires node < |g| == |backEdges|
  {
    && Edge(g, node, succ) && succ !in backEdges[node] && succ in mask
    && EffectivePredCount(g[succ]) == 1
  }

  /** The metering after moving `x` from every eligible successor to `node`, in 64 bits; to itself it moves nothing. */
  ghost predicate Moved(
    g: seq<GasBlock>, backEdges: seq<seq<nat>>, mask: set<nat>, node: nat, m: seq<nat>, m': seq<nat>, x: nat)
    requires node < |g| == |backEdges|
  {
    && |m| == |m'| == |g|
    && m'[node] == (if Eligible(g, backEdges, mask, node, node) then m[node] else (m[node] + x) % TWO64)
    && forall v: nat :: v < |g| && v != node ==>
         if Eligible(g, backEdges, mask, node, v) then x <= m[v] && m'[v] == m[v] - x else m'[v] == m[v]
  }

  /**
   An update changes nothing: the block ends in a gas-sensitive opcode, an eligible successor
   has nothing left, or all of them (perhaps there are none) hold the largest 64-bit value.
   */
  ghost predicate NothingToMove(g: seq<GasBlock>, backEdges: seq<seq<nat>>, mask: set<nat>, node: nat, m: seq<nat>)
    requires node < |g| == |backEdges| == |m|
  {
    || IsGasSensitiveTerminator(g[node].lastOpcode)
    || (exists v: nat :: Eligible(g, backEdges, mask, node, v) && m[v] == 0)
    || forall v: nat :: Eligible(g, backEdges, mask, node, v) ==> m[v] == UINT64_MAX
  }

  /** `x` is the least metering of the eligible successors, and small enough to be told from "none". */
  ghost predicate LeastToMove(g: seq<GasBlock>, backEdges: seq<seq<nat>>, mask: set<nat>, node: nat, m: seq<nat>, x: nat)
    requires node < |g| == |backEdges| == |m|
  {
    && !IsGasSensitiveTerminator(g[node].lastOpcode) && 0 < x < UINT64_MAX
    && (exists v: nat :: Eligible(g, backEdges, mask, node, v) && m[v] == x)
    && forall v: nat :: Eligible(g, backEdges, mask, node, v) ==> x <= m[v]
  }

  /** The addition to the block's own metering needs more than 64 bits. */
  ghost predicate WrapsAt(g: seq<GasBlock>, backEdges: seq<seq<nat>>, mask: set<nat>, node: nat, m: seq<nat>)
    requires node < |g| == |backEdges| == |m|
  {
    exists x: nat :: LeastToMove(g, backEdges, mask, node, m, x) && m[node] + x >= TWO64
  }

  lemma OnlyLeast(g: seq<GasBlock>, backEdges: seq<seq<nat>>, mask: set<nat>, node: nat, m: seq<nat>, x: nat)
    requires node < |g| == |backEdges| == |m| && LeastToMove(g, backEdges, mask, node, m, x)
    ensures WrapsAt(g, backEdges, mask, node, m) <==> m[node] + x >= TWO64
  {
    forall y: nat | LeastToMove(g, backEdges, mask, node, m, y)
      ensures y == x
    {
    }
  }

  lemma NothingWraps(g: seq<GasBlock>, backEdges: seq<seq<nat>>, mask: set<nat>, node: nat, m: seq<nat>)
    requires node < |g| == |backEdges| == |m| && NothingToMove(g, backEdges, mask, node, m)
    ensures !WrapsAt(g, backEdges, mask, node, m)
  {
  }

  /**
   One update: move the least metering of the eligible successors to the block itself.
   `moved` is 0 when nothing changes.
   */
  method Lemma614Update(g: seq<GasBlock>, backEdges: seq<seq<nat>>, mask: set<nat>, node: nat, m: seq<nat>)
    returns (m': seq<nat>, moved: nat)
    requires WellFormed(g) && node < |g| == |m| == |backEdges|
    requires forall v :: 0 <= v < |m| ==> m[v] < TWO64
    ensures |m'| == |g| && forall v :: 0 <= v < |m'| ==> m'[v] < TWO64
    ensures moved > 0 ==> LeastToMove(g, backEdges, mask, node, m, moved) && Moved(g, backEdges, mask, node, m, m', moved)
    ensures moved == 0 ==> m' == m && NothingToMove(g, backEdges, mask, node, m)
  {
    hide WellFormed, Distinct, IsGasSensitiveTerminator;
    m', moved := m, 0;
    if IsGasSensitiveTerminator(g[node].lastOpcode) {
      return;
    }
    var succs := g[node].succs;
    var minSucc: nat := UINT64_MAX;
    var i := 0;
    while i < |succs|
      invariant 0 <= i <= |succs| && minSucc <= UINT64_MAX
      invariant forall v :: v in succs[..i] && Eligible(g, backEdges, mask, node, v) ==> minSucc <= m[v]
      invariant minSucc < UINT64_MAX ==> exists v: nat :: Eligible(g, backEdges, mask, node, v) && m[v] == minSucc
    {
      var succ := succs[i];
      assert succs[..i + 1] == succs[..i] + [succ];
      if succ < |g| && succ !in backEdges[node] && succ in mask && EffectivePredCount(g[succ]) == 1 {
        assert Eligible(g, backEdges, mask, node, succ);
        minSucc := if minSucc <= m[succ] then minSucc else m[succ];
      }
      i := i + 1;
    }
    assert succs[..i] == succs;
    if minSucc == 0 || minSucc == UINT64_MAX {
      return;
    }
    moved := minSucc;
    m' := SubtractFromEligible(g, backEdges, mask, node, m[node := (m[node] + minSucc) % TWO64], minSucc);
    AddThenSubtract(m[node], minSucc);
    forall v: nat | v < |g| && v != node && Eligible(g, backEdges, mask, node, v)
      ensures m'[v] == m[v] - minSucc
    {
      SmallMod(m[v] - minSucc, TWO64);
    }
  }

  lemma AddThenSubtract(a: nat, x: nat)
    requires a < TWO64
    ensures ((a + x) % TWO64 - x) % TWO64 == a
  {
    var back: int := x;
    ModAdd(a + x, -back);
    SmallMod(a, TWO64);
  }

  /** Unsigned subtraction: a result below zero wraps. */
  method SubtractFromEligible(
    g: seq<GasBlock>, backEdges: seq<seq<nat>>, mask: set<nat>, node: nat, m: seq<nat>, x: nat) returns (m': seq<nat>)
    requires WellFormed(g) && node < |g| == |m| == |backEdges|
    ensures |m'| == |g|
    ensures forall v: nat :: v < |g| ==>
              m'[v] == if Eligible(g, backEdges, mask, node, v) then (m[v] - x) % TWO64 else m[v]
  {
    var succs := g[node].succs;
    assert Distinct(succs);
    hide WellFormed;
    m' := m;
    var i := 0;
    while i < |succs|
      invariant 0 <= i <= |succs| && |m'| == |g|
      invariant forall v: nat :: v < |g| ==>
                  m'[v] == if v in succs[..i] && Eligible(g, backEdges, mask, node, v) then (m[v] - x) % TWO64 else m[v]
    {
      var succ := succs[i];
      assert succs[..i + 1] == succs[..i] + [succ];
      assert succ !in succs[..i];
      if succ < |g| && succ !in backEdges[node] && succ in mask && EffectivePredCount(g[succ]) == 1 {
        assert Eligible(g, backEdges, mask, node, succ);
        m' := m'[succ := (m'[succ] - x) % TWO64];
      }
      i := i + 1;
    }
    assert succs[..i] == succs;
  }

  /** Nothing may be paid ahead out of these blocks: execution ends or reads the gas there. */
  predicate SettlesHere(b: GasBlock) {
    |b.succs| == 0 || IsGasSensitiveTerminator(b.lastOpcode)
  }

  ghost predicate Balanced(g: seq<GasBlock>, ideal: seq<nat>, paid: seq<nat>) {
    && |ideal| == |paid| == |g| > 0
    && ideal[0] == g[0].cost + paid[0]
    && (forall u: nat, v: nat :: Edge(g, u, v) && Reaches(g, 0, u) ==> ideal[v] + paid[u] == g[v].cost + paid[v])
    && (forall v: nat :: v < |g| && SettlesHere(g[v]) ==> paid[v] == 0)
  }

  /** Either all successors of `node` take part in its update or none does. */
  ghost predicate Uniform(g: seq<GasBlock>, backEdges: seq<seq<nat>>, mask: set<nat>, node: nat)
    requires node < |g| == |backEdges|
  {
    || (forall v :: Edge(g, node, v) ==> Eligible(g, backEdges, mask, node, v))
    || (forall v :: !Eligible(g, backEdges, mask, node, v))
  }

  /** The unbounded counterpart of an update. */
  ghost function MoveIdeal(
    g: seq<GasBlock>, backEdges: seq<seq<nat>>, mask: set<nat>, node: nat, ideal: seq<nat>, x: nat): (r: seq<nat>)
    requires node < |g| == |backEdges| == |ideal|
    requires forall v: nat :: v < |g| && Eligible(g, backEdges, mask, node, v) ==> x <= ideal[v]
    ensures |r| == |g|
  {
    seq(|g|, v requires 0 <= v < |g| =>
      if v == node then ideal[v] + x else if Eligible(g, backEdges, mask, node, v) then ideal[v] - x else ideal[v])
  }

  lemma EligibleHasOnePred(g: seq<GasBlock>, backEdges: seq<seq<nat>>, mask: set<nat>, node: nat, v: nat)
    requires WellFormed(g) && node < |g| == |backEdges| && Eligible(g, backEdges, mask, node, v)
    ensures g[v].preds == [node] && g[v].start != 0
    ensures forall u :: Edge(g, u, v) ==> u == node
  {
    assert node in g[v].preds;
    assert g[v].preds[0] == node;
    forall u | Edge(g, u, v)
      ensures u == node
    {
      assert u in g[v].preds;
    }
  }

  /** An update off the cycles keeps the balance: the block has paid `x` more for what follows it. */
  lemma UpdateKeepsBalance(
    g: seq<GasBlock>, backEdges: seq<seq<nat>>, mask: set<nat>, node: nat, ideal: seq<nat>, paid: seq<nat>, x: nat)
    requires WellFormed(g) && node < |g| == |backEdges| && Balanced(g, ideal, paid) && g[0].start == 0
    requires Reaches(g, 0, node) ==> Uniform(g, backEdges, mask, node)
    requires node !in g[node].succs && !IsGasSensitiveTerminator(g[node].lastOpcode)
    requires exists v :: Eligible(g, backEdges, mask, node, v)
    requires forall v: nat :: v < |g| && Eligible(g, backEdges, mask, node, v) ==> x <= ideal[v]
    ensures Balanced(g, MoveIdeal(g, backEdges, mask, node, ideal, x), paid[node := paid[node] + x])
  {
    var ideal', paid' := MoveIdeal(g, backEdges, mask, node, ideal, x), paid[node := paid[node] + x];
    hide WellFormed, Reaches, IsGasSensitiveTerminator;
    forall v | Eligible(g, backEdges, mask, node, v)
      ensures v != 0 && forall u :: Edge(g, u, v) ==> u == node
    {
      EligibleHasOnePred(g, backEdges, mask, node, v);
    }
    forall u: nat, v: nat | Edge(g, u, v) && Reaches(g, 0, u)
      ensures ideal'[v] + paid'[u] == g[v].cost + paid'[v]
    {
      if u == node {
        assert Eligible(g, backEdges, mask, node, v);
      }
    }
  }

  lemma {:induction false} PathSumAppend(w: seq<nat>, p: seq<nat>, v: nat)
    ensures PathSum(w, p + [v]) == PathSum(w, p) + At(w, v)
  {
    if p == [] {
      PathSumCons(w, v, []);
      assert p + [v] == [v] + [];
    } else {
      assert (p + [v])[1..] == p[1..] + [v];
      PathSumAppend(w, p[1..], v);
    }
  }

  /** Along every path from the entry, what is metered is the cost plus what is paid ahead. */
  lemma {:induction false} PathBalance(g: seq<GasBlock>, ideal: seq<nat>, paid: seq<nat>, p: seq<nat>, v: nat)
    requires Balanced(g, ideal, paid) && PathFromTo(g, p, 0, v)
    ensures v < |g| && PathSum(ideal, p) == PathSum(Costs(g), p) + paid[v]
    decreases |p|
  {
    if |p| == 1 {
      assert p == [0] + [];
      PathSumCons(ideal, 0, []);
      PathSumCons(Costs(g), 0, []);
    } else {
      LastEdge(g, p, 0, v);
      var q, u := p[..|p| - 1], p[|p| - 2];
      PathBalance(g, ideal, paid, q, u);
      assert Reaches(g, 0, u);
      assert p == q + [v];
      PathSumAppend(ideal, q, v);
      PathSumAppend(Costs(g), q, v);
    }
  }

  function SumAll(w: seq<nat>): (n: nat) {
    if w == [] then 0 else w[0] + SumAll(w[1..])
  }

  lemma {:induction false} SumAllUpdate(w: seq<nat>, i: nat, x: nat)
    requires i < |w|
    ensures SumAll(w[i := x]) == SumAll(w) - w[i] + x && w[i] <= SumAll(w)
  {
    if i == 0 {
      assert w[i := x][1..] == w[1..];
    } else {
      assert w[i := x][1..] == w[1..][i - 1 := x];
      SumAllUpdate(w[1..], i - 1, x);
    }
  }

  lemma {:induction false} SumAllMonotone(a: seq<nat>, b: seq<nat>)
    requires |a| == |b| && forall i :: 0 <= i < |a| ==> a[i] <= b[i]
    ensures SumAll(a) <= SumAll(b)
  {
    if a != [] {
      SumAllMonotone(a[1..], b[1..]);
    }
  }

  /** An update never raises the total. */
  lemma MoveLowersTotal(
    g: seq<GasBlock>, backEdges: seq<seq<nat>>, mask: set<nat>, node: nat, ideal: seq<nat>, x: nat, s: nat)
    requires node < |g| == |backEdges| == |ideal| && node !in g[node].succs
    requires Eligible(g, backEdges, mask, node, s)
    requires forall v: nat :: v < |g| && Eligible(g, backEdges, mask, node, v) ==> x <= ideal[v]
    ensures SumAll(MoveIdeal(g, backEdges, mask, node, ideal, x)) <= SumAll(ideal)
  {
    var one := ideal[node := ideal[node] + x][s := ideal[s] - x];
    SumAllUpdate(ideal, node, ideal[node] + x);
    SumAllUpdate(ideal[node := ideal[node] + x], s, ideal[s] - x);
    SumAllMonotone(MoveIdeal(g, backEdges, mask, node, ideal, x), one);
  }

  /** The stored metering is the ideal one in 64 bits. */
  ghost predicate Stores(m: seq<nat>, ideal: seq<nat>) {
    |m| == |ideal| && forall v :: 0 <= v < |m| ==> m[v] == ideal[v] % TWO64
  }

  lemma ModMinus(a: nat, x: nat)
    requires x <= a % TWO64
    ensures x <= a && (a - x) % TWO64 == a % TWO64 - x
  {
    var q, r := a / TWO64, a % TWO64;
    assert a - x == q * TWO64 + (r - x);
    ModUnique(q, r - x);
  }

  lemma ModUnique(q: nat, r: nat)
    requires r < TWO64
    ensures (q * TWO64 + r) % TWO64 == r
  {
  }

  lemma MoveStores(
    g: seq<GasBlock>, backEdges: seq<seq<nat>>, mask: set<nat>, node: nat, m: seq<nat>, m': seq<nat>, ideal: seq<nat>, x: nat)
    requires node < |g| == |backEdges| == |ideal| && node !in g[node].succs && Stores(m, ideal)
    requires Moved(g, backEdges, mask, node, m, m', x)
    ensures forall v: nat :: v < |g| && Eligible(g, backEdges, mask, node, v) ==> x <= ideal[v]
    ensures Stores(m', MoveIdeal(g, backEdges, mask, node, ideal, x))
  {
    forall v: nat | v < |g| && Eligible(g, backEdges, mask, node, v)
      ensures x <= ideal[v] && m'[v] == (ideal[v] - x) % TWO64
    {
      ModMinus(ideal[v], x);
    }
    ModAdd(ideal[node], x);
  }

  lemma {:induction false} PathSumMod(m: seq<nat>, ideal: seq<nat>, p: seq<nat>)
    requires Stores(m, ideal)
    ensures PathSum(m, p) % TWO64 == PathSum(ideal, p) % TWO64
  {
    if p != [] {
      PathSumMod(m, ideal, p[1..]);
      var a, b := At(ideal, p[0]), PathSum(ideal, p[1..]);
      assert At(m, p[0]) == a % TWO64;
      ModAdd(a, PathSum(m, p[1..]));
      ModAdd(PathSum(m, p[1..]), a);
      ModAdd(b, a);
    }
  }

  /** A prefix of execution from the entry is never undercharged, and is exact where it settles. */
  ghost predicate Conserves(g: seq<GasBlock>, m: seq<nat>) {
    forall p, v: nat :: v < |g| && PathFromTo(g, p, 0, v) ==>
      && PathSum(m, p) >= PathSum(Costs(g), p)
      && (SettlesHere(g[v]) ==> PathSum(m, p) == PathSum(Costs(g), p))
  }

  /** The same in 64-bit arithmetic. */
  ghost predicate ConservesMod(g: seq<GasBlock>, m: seq<nat>) {
    forall p, v: nat :: v < |g| && PathFromTo(g, p, 0, v) && SettlesHere(g[v]) ==>
      PathSum(m, p) % TWO64 == PathSum(Costs(g), p) % TWO64
  }

  /** A stored value differs from the ideal one by at least 2^64, and so does a path through such a block. */
  lemma {:induction false} PathSumGap(m: seq<nat>, ideal: seq<nat>, p: seq<nat>)
    requires Stores(m, ideal)
    ensures if forall v :: v in p ==> At(m, v) == At(ideal, v) then PathSum(m, p) == PathSum(ideal, p)
            else PathSum(m, p) + TWO64 <= PathSum(ideal, p)
  {
    if p != [] {
      PathSumGap(m, ideal, p[1..]);
      if p[0] < |m| {
        ModGap(ideal[p[0]]);
      }
      assert forall v :: v in p <==> v == p[0] || v in p[1..];
    }
  }

  lemma ModGap(a: nat)
    ensures a % TWO64 == a || a % TWO64 + TWO64 <= a
  {
  }

  /** Gas is conserved as numbers exactly when no reachable block has lost a multiple of 2^64. */
  lemma ConservesWhenStored(g: seq<GasBlock>, m: seq<nat>, ideal: seq<nat>, paid: seq<nat>)
    requires Balanced(g, ideal, paid) && Stores(m, ideal) && forall v :: 0 <= v < |paid| ==> paid[v] < TWO64
    ensures Conserves(g, m) <==> forall v: nat :: v < |g| && Reaches(g, 0, v) ==> m[v] == ideal[v]
  {
    hide PathSum, PathFromTo, Stores, SettlesHere;
    assert |m| == |ideal| by { StoresSize(m, ideal); }
    if forall v: nat :: v < |g| && Reaches(g, 0, v) ==> m[v] == ideal[v] {
      forall p, v: nat | v < |g| && PathFromTo(g, p, 0, v)
        ensures PathSum(m, p) == PathSum(Costs(g), p) + paid[v]
      {
        PathBalance(g, ideal, paid, p, v);
        PathSumGap(m, ideal, p);
        forall u | u in p
          ensures At(m, u) == At(ideal, u)
        {
          OnPathReaches(g, p, v, u);
        }
      }
    } else {
      var v: nat :| v < |g| && Reaches(g, 0, v) && m[v] != ideal[v];
      var p :| PathFromTo(g, p, 0, v);
      PathBalance(g, ideal, paid, p, v);
      PathSumGap(m, ideal, p);
      assert v in p && At(m, v) != At(ideal, v) by { PathEndIn(g, p, v); }
    }
  }

  lemma StoresSize(m: seq<nat>, ideal: seq<nat>)
    requires Stores(m, ideal)
    ensures |m| == |ideal|
  {
  }

  lemma PathEndIn(g: seq<GasBlock>, p: seq<nat>, v: nat)
    requires PathFromTo(g, p, 0, v)
    ensures v in p
  {
    assert p[|p| - 1] == v;
  }

  lemma OnPathReaches(g: seq<GasBlock>, p: seq<nat>, v: nat, u: nat)
    requires PathFromTo(g, p, 0, v) && u in p
    ensures Reaches(g, 0, u)
  {
    var i :| 0 <= i < |p| && p[i] == u;
    assert PathFromTo(g, p[..i + 1], 0, u);
  }

  lemma BalancedConserves(g: seq<GasBlock>, m: seq<nat>, ideal: seq<nat>, paid: seq<nat>)
    requires Balanced(g, ideal, paid) && Stores(m, ideal) && SumAll(ideal) <= SumAll(Costs(g))
    ensures ConservesMod(g, m)
    ensures SumAll(Costs(g)) < TWO64 ==> Conserves(g, m)
  {
    if SumAll(Costs(g)) < TWO64 {
      forall v | 0 <= v < |m|
        ensures m[v] == ideal[v]
      {
        SumAllUpdate(ideal, v, 0);
        SmallMod(ideal[v], TWO64);
      }
      assert m == ideal;
    }
    forall p, v: nat | v < |g| && PathFromTo(g, p, 0, v)
      ensures PathSum(ideal, p) == PathSum(Costs(g), p) + paid[v]
      ensures PathSum(m, p) % TWO64 == PathSum(ideal, p) % TWO64
    {
      PathBalance(g, ideal, paid, p, v);
      PathSumMod(m, ideal, p);
    }
  }

  /** `backEdges[u]` lists the successors that the dominator sets say dominate `u`. */
  ghost predicate BackEdgesOf(g: seq<GasBlock>, dom: seq<set<nat>>, backEdges: seq<seq<nat>>) {
    && |backEdges| == |dom| == |g|
    && forall u: nat, v: nat :: u < |g| ==> (v in backEdges[u] <==> Edge(g, u, v) && v in dom[u])
  }

  method FindBackEdgesUsingDominators(g: seq<GasBlock>, dom: seq<set<nat>>) returns (backEdges: seq<seq<nat>>)
    requires |dom| == |g|
    ensures BackEdgesOf(g, dom, backEdges)
  {
    backEdges := [];
    var from := 0;
    while from < |g|
      invariant 0 <= from <= |g| && |backEdges| == from
      invariant forall u: nat, v: nat :: u < from ==> (v in backEdges[u] <==> Edge(g, u, v) && v in dom[u])
    {
      var succs, edges: seq<nat> := g[from].succs, [];
      var i := 0;
      while i < |succs|
        invariant 0 <= i <= |succs|
        invariant forall v: nat :: v in edges <==> v in succs[..i] && v < |g| && v in dom[from]
      {
        assert succs[..i + 1] == succs[..i] + [succs[i]];
        if succs[i] < |g| && succs[i] in dom[from] {
          edges := edges + [succs[i]];
        }
        i := i + 1;
      }
      assert succs[..i] == succs;
      backEdges := backEdges + [edges];
      from := from + 1;
    }
  }

  /** What `ComputeDominators` promises about its result for entry 0. */
  ghost predicate DominatorSets(g: seq<GasBlock>, dom: seq<set<nat>>) {
    && |dom| == |g| > 0
    && (EntryUnreached(g, 0) || |g| == 1 ==> Exact(g, 0, dom))
    && (!EntryUnreached(g, 0) ==> forall v :: 0 <= v < |g| && Reaches(g, 0, v) ==> dom[v] == All(g))
  }

  ghost predicate NoCriticalEdges(g: seq<GasBlock>) {
    forall u: nat, v: nat :: !Critical(g, u, v)
  }

  /** Only the entry block starts at offset 0. */
  predicate OnlyEntryAtStart(g: seq<GasBlock>) {
    forall v :: 0 <= v < |g| ==> (g[v].start == 0 <==> v == 0)
  }

  /** A true back edge out of a reachable block puts that block on a cycle. */
  lemma BackEdgeMakesCycle(g: seq<GasBlock>, dom: seq<set<nat>>, node: nat, v: nat)
    requires |dom| == |g| > 0 && Exact(g, 0, dom) && Reaches(g, 0, node) && Edge(g, node, v) && v in dom[node]
    ensures OnCycle(g, node)
  {
    var p :| PathFromTo(g, p, 0, node);
    assert Dominates(g, 0, v, node);
    var i :| 0 <= i < |p| && p[i] == v;
    PathReaches(g, p, i, |p| - 1);
  }

  /** A successor whose only predecessor is off the cycles is off them too. */
  lemma CycleEntersThroughPred(g: seq<GasBlock>, node: nat, v: nat)
    requires WellFormed(g) && Edge(g, node, v) && |g[v].preds| == 1 && OnCycle(g, v)
    ensures OnCycle(g, node)
  {
    var w :| Edge(g, v, w) && Reaches(g, w, v);
    var p :| PathFromTo(g, p, w, v);
    ReachesEdge(g, v, w);
    ReachesTransitive(g, v, w, v);
    if |p| == 1 {
      OnlyPred(g, node, v, v);
      ReachesSelf(g, v);
    } else {
      LastEdge(g, p, w, v);
      OnlyPred(g, node, p[|p| - 2], v);
      assert Reaches(g, w, node);
      ReachesTransitive(g, v, w, node);
    }
  }

  lemma OnlyPred(g: seq<GasBlock>, u: nat, u': nat, v: nat)
    requires WellFormed(g) && Edge(g, u, v) && Edge(g, u', v) && |g[v].preds| == 1
    ensures u == u'
  {
    assert u in g[v].preds && u' in g[v].preds;
    assert g[v].preds[0] == u;
  }

  /**
   Why splitting critical edges makes the updates safe: off the cycles, the successors of a
   reachable block are all eligible or none is.
   */
  lemma UniformEligibility(
    g: seq<GasBlock>, dom: seq<set<nat>>, backEdges: seq<seq<nat>>, mask: set<nat>, node: nat)
    requires WellFormed(g) && NoCriticalEdges(g) && OnlyEntryAtStart(g)
    requires DominatorSets(g, dom) && BackEdgesOf(g, dom, backEdges)
    requires forall v: nat :: v in mask <==> v < |g| && !OnCycle(g, v)
    requires Reaches(g, 0, node) && node < |g| && !OnCycle(g, node)
    ensures Uniform(g, backEdges, mask, node)
  {
    if !EntryUnreached(g, 0) && |g| > 1 {
      forall v
        ensures !Eligible(g, backEdges, mask, node, v)
      {
        if Edge(g, node, v) {
          assert v in dom[node];
        }
      }
    } else if |g[node].succs| > 1 {
      forall v | Edge(g, node, v)
        ensures Eligible(g, backEdges, mask, node, v)
      {
        SuccessorEligible(g, dom, backEdges, mask, node, v);
      }
    } else if v :| Eligible(g, backEdges, mask, node, v) {
      forall w | Edge(g, node, w)
        ensures w == v
      {
        assert g[node].succs[0] == v;
      }
    }
  }

  lemma SuccessorEligible(
    g: seq<GasBlock>, dom: seq<set<nat>>, backEdges: seq<seq<nat>>, mask: set<nat>, node: nat, v: nat)
    requires WellFormed(g) && NoCriticalEdges(g) && OnlyEntryAtStart(g)
    requires |dom| == |g| > 0 && Exact(g, 0, dom) && BackEdgesOf(g, dom, backEdges)
    requires forall v: nat :: v in mask <==> v < |g| && !OnCycle(g, v)
    requires Reaches(g, 0, node) && node < |g| && !OnCycle(g, node)
    requires |g[node].succs| > 1 && Edge(g, node, v)
    ensures Eligible(g, backEdges, mask, node, v)
  {
    assert !Critical(g, node, v);
    assert node in g[v].preds;
    assert |g[v].preds| == 1;
    if v in backEdges[node] {
      BackEdgeMakesCycle(g, dom, node, v);
    }
    if OnCycle(g, v) {
      CycleEntersThroughPred(g, node, v);
    }
    assert v != 0;
  }

  /** `m'` is `m` after one update of `node`, whether or not there was something to move. */
  ghost predicate UpdateOf(g: seq<GasBlock>, backEdges: seq<seq<nat>>, mask: set<nat>, node: nat, m: seq<nat>, m': seq<nat>)
    requires node < |g| == |backEdges| == |m|
  {
    || (m' == m && NothingToMove(g, backEdges, mask, node, m))
    || exists x: nat :: MovesLeast(g, backEdges, mask, node, m, m', x)
  }

  ghost predicate MovesLeast(
    g: seq<GasBlock>, backEdges: seq<seq<nat>>, mask: set<nat>, node: nat, m: seq<nat>, m': seq<nat>, x: nat)
    requires node < |g| == |backEdges| == |m|
  {
    LeastToMove(g, backEdges, mask, node, m, x) && Moved(g, backEdges, mask, node, m, m', x)
  }

  /** Entry `i` of `states` is the metering before block `order[i]` is processed; blocks on cycles are skipped. */
  ghost predicate Updates(
    g: seq<GasBlock>, backEdges: seq<seq<nat>>, inCycle: seq<bool>, mask: set<nat>, order: seq<nat>, states: seq<seq<nat>>)
    requires |inCycle| == |g| == |backEdges|
  {
    && |states| > 0 && |states| - 1 <= |order| && states[0] == Costs(g)
    && forall i: nat :: i < |states| - 1 ==> Updated(g, backEdges, inCycle, mask, order[i], states[i], states[i + 1])
  }

  ghost predicate Updated(
    g: seq<GasBlock>, backEdges: seq<seq<nat>>, inCycle: seq<bool>, mask: set<nat>, node: nat, m: seq<nat>, m': seq<nat>)
    requires |inCycle| == |g| == |backEdges|
  {
    node < |g| == |m| && if inCycle[node] then m' == m else UpdateOf(g, backEdges, mask, node, m, m')
  }

  lemma UpdatesMore(
    g: seq<GasBlock>, backEdges: seq<seq<nat>>, inCycle: seq<bool>, mask: set<nat>, order: seq<nat>, states: seq<seq<nat>>,
    m': seq<nat>)
    requires |inCycle| == |g| == |backEdges| && Updates(g, backEdges, inCycle, mask, order, states) && |states| <= |order|
    requires Updated(g, backEdges, inCycle, mask, order[|states| - 1], states[|states| - 1], m')
    ensures Updates(g, backEdges, inCycle, mask, order, states + [m'])
  {
    hide Updated;
  }

  /** The addition made when block `order[i]` is processed needs more than 64 bits. */
  ghost predicate Wraps(
    g: seq<GasBlock>, backEdges: seq<seq<nat>>, inCycle: seq<bool>, mask: set<nat>, order: seq<nat>, states: seq<seq<nat>>,
    i: nat)
    requires |inCycle| == |g| == |backEdges|
  {
    && i < |order| && i + 1 < |states| && order[i] < |g| == |states[i]|
    && !inCycle[order[i]] && WrapsAt(g, backEdges, mask, order[i], states[i])
  }

  /** No addition at a reachable block wraps. */
  ghost predicate NeverWraps(
    g: seq<GasBlock>, backEdges: seq<seq<nat>>, inCycle: seq<bool>, mask: set<nat>, order: seq<nat>, states: seq<seq<nat>>)
    requires |inCycle| == |g| == |backEdges|
  {
    forall i: nat :: Wraps(g, backEdges, inCycle, mask, order, states, i) ==> !Reaches(g, 0, order[i])
  }

  /** The blocks that lost a multiple of 2^64 are those at which an addition wrapped. */
  ghost predicate Tracks(
    g: seq<GasBlock>, backEdges: seq<seq<nat>>, inCycle: seq<bool>, mask: set<nat>, order: seq<nat>, states: seq<seq<nat>>,
    m: seq<nat>, ideal: seq<nat>)
    requires |inCycle| == |g| == |backEdges|
  {
    && |m| == |ideal| == |g|
    && forall v: nat :: v < |g| ==>
         (m[v] == ideal[v] <==> forall i: nat :: Wraps(g, backEdges, inCycle, mask, order, states, i) ==> order[i] != v)
  }

  lemma AddWraps(a: nat, ideal: nat, x: nat)
    requires a == ideal % TWO64
    ensures (a + x) % TWO64 == ideal + x <==> a == ideal && a + x < TWO64
  {
    ModGap(ideal);
    ModGap(a + x);
    assert (a + x) % TWO64 < TWO64;
  }

  lemma MoveWraps(
    g: seq<GasBlock>, backEdges: seq<seq<nat>>, mask: set<nat>, node: nat, m: seq<nat>, m': seq<nat>, ideal: seq<nat>, x: nat)
    requires node < |g| == |backEdges| == |ideal| && node !in g[node].succs && Stores(m, ideal)
    requires |m| == |g| && MovesLeast(g, backEdges, mask, node, m, m', x)
    requires forall v: nat :: v < |g| && Eligible(g, backEdges, mask, node, v) ==> x <= ideal[v]
    ensures var ideal' := MoveIdeal(g, backEdges, mask, node, ideal, x);
            forall v: nat :: v < |g| ==>
              (m'[v] == ideal'[v] <==> m[v] == ideal[v] && !(v == node && WrapsAt(g, backEdges, mask, node, m)))
  {
    OnlyLeast(g, backEdges, mask, node, m, x);
    hide WrapsAt, LeastToMove;
    AddWraps(m[node], ideal[node], x);
  }

  lemma TracksMore(
    g: seq<GasBlock>, backEdges: seq<seq<nat>>, inCycle: seq<bool>, mask: set<nat>, order: seq<nat>, states: seq<seq<nat>>,
    m: seq<nat>, ideal: seq<nat>, m': seq<nat>, ideal': seq<nat>)
    requires |inCycle| == |g| == |backEdges| && Tracks(g, backEdges, inCycle, mask, order, states, m, ideal)
    requires 0 < |states| <= |order| && states[|states| - 1] == m && order[|states| - 1] < |g| == |m'| == |ideal'|
    requires var node := order[|states| - 1];
             forall v: nat :: v < |g| ==>
               (m'[v] == ideal'[v] <==>
                m[v] == ideal[v] && !(v == node && !inCycle[node] && WrapsAt(g, backEdges, mask, node, m)))
    ensures Tracks(g, backEdges, inCycle, mask, order, states + [m'], m', ideal')
  {
    hide WrapsAt;
    var n, states' := |states| - 1, states + [m'];
    assert forall i: nat :: Wraps(g, backEdges, inCycle, mask, order, states', i) <==>
        Wraps(g, backEdges, inCycle, mask, order, states, i)
        || (i == n && !inCycle[order[n]] && WrapsAt(g, backEdges, mask, order[n], m));
    hide Wraps;
  }

  /** With one update per block, gas is conserved as numbers exactly when no addition at a reachable block wraps. */
  lemma ConservesUnlessWrapped(
    g: seq<GasBlock>, backEdges: seq<seq<nat>>, inCycle: seq<bool>, mask: set<nat>, order: seq<nat>, states: seq<seq<nat>>,
    m: seq<nat>, ideal: seq<nat>, paid: seq<nat>)
    requires Balanced(g, ideal, paid) && Stores(m, ideal) && forall v :: 0 <= v < |paid| ==> paid[v] < TWO64
    requires |inCycle| == |g| == |backEdges| && Tracks(g, backEdges, inCycle, mask, order, states, m, ideal)
    ensures Conserves(g, m) <==> NeverWraps(g, backEdges, inCycle, mask, order, states)
  {
    ConservesWhenStored(g, m, ideal, paid);
    hide Conserves, Balanced, Stores, Reaches, WrapsAt;
    if NeverWraps(g, backEdges, inCycle, mask, order, states) {
      forall v: nat | v < |g| && Reaches(g, 0, v)
        ensures m[v] == ideal[v]
      {
      }
    } else {
      var i: nat :| Wraps(g, backEdges, inCycle, mask, order, states, i) && Reaches(g, 0, order[i]);
      assert m[order[i]] != ideal[order[i]];
    }
  }

  /** A block pays ahead only when it is processed, less than 2^64. */
  ghost predicate PaidOnce(order: seq<nat>, n: nat, paid: seq<nat>)
    requires n <= |order|
  {
    forall v: nat :: v < |paid| ==> paid[v] < TWO64 && (v !in order[..n] ==> paid[v] == 0)
  }

  lemma PaidMore(order: seq<nat>, n: nat, paid: seq<nat>, x: nat)
    requires n < |order| && order[n] < |paid| && x < TWO64
    ensures Distinct(order) && PaidOnce(order, n, paid) ==> PaidOnce(order, n + 1, paid[order[n] := paid[order[n]] + x])
  {
    assert order[..n + 1] == order[..n] + [order[n]];
    assert Distinct(order) ==> order[n] !in order[..n];
  }

  lemma AllPaidOnce(order: seq<nat>, n: nat, paid: seq<nat>)
    requires n <= |order| && PaidOnce(order, n, paid)
    ensures forall v :: 0 <= v < |paid| ==> paid[v] < TWO64
  {
  }

  /**
   Any sequence of updates on blocks off the cycles, in any order and with repetitions,
   conserves gas: every path from the entry is metered for at least its cost, and for
   exactly its cost where execution ends or reads the gas. In 64-bit arithmetic the latter
   holds for all costs; as numbers when the costs add up to less than 2^64, and, with one
   update per block, exactly when no addition at a reachable block wraps.
   */
  method ShiftMetering(
    g: seq<GasBlock>, ghost dom: seq<set<nat>>, backEdges: seq<seq<nat>>, inCycle: seq<bool>, order: seq<nat>)
    returns (m: seq<nat>, ghost mask: set<nat>, ghost states: seq<seq<nat>>)
    requires WellFormed(g) && |g| > 0 && NoCriticalEdges(g) && OnlyEntryAtStart(g)
    requires DominatorSets(g, dom) && BackEdgesOf(g, dom, backEdges)
    requires |inCycle| == |g| && forall v :: 0 <= v < |g| ==> (inCycle[v] <==> OnCycle(g, v))
    requires forall i :: 0 <= i < |order| ==> order[i] < |g|
    requires forall v :: 0 <= v < |g| ==> g[v].cost < TWO64
    ensures |m| == |g| && ConservesMod(g, m)
    ensures SumAll(Costs(g)) < TWO64 ==> Conserves(g, m)
    ensures |backEdges| == |g| && Updates(g, backEdges, inCycle, mask, order, states)
    ensures |states| == |order| + 1 && states[|order|] == m && forall v: nat :: v in mask <==> v < |g| && !inCycle[v]
    ensures Distinct(order) ==> (Conserves(g, m) <==> NeverWraps(g, backEdges, inCycle, mask, order, states))
  {
    hide WellFormed, NoCriticalEdges, DominatorSets, OnCycle, Uniform, BackEdgesOf, IsGasSensitiveTerminator;
    hide Edge, Eligible, Moved, Reaches, OnlyEntryAtStart, PathSum, SumAll, NothingToMove, WrapsAt, Distinct;
    hide Conserves, ConservesMod, NeverWraps, Balanced, Stores, Tracks, PaidOnce;
    m := Costs(g);
    var allowed := NonCycleMask(inCycle);
    mask, states := allowed, [m];
    ghost var ideal, paid := m, seq(|g|, _ => 0);
    BackEdgesSize(g, dom, backEdges);
    EntryAtStart(g);
    StartsBalanced(g);
    StartsTracked(g, backEdges, inCycle, mask, order, paid);
    var i := 0;
    while i < |order|
      invariant 0 <= i <= |order| && |m| == |ideal| == |paid| == |g| && Balanced(g, ideal, paid) && Stores(m, ideal)
      invariant SumAll(ideal) <= SumAll(Costs(g))
      invariant forall v :: 0 <= v < |m| ==> m[v] < TWO64
      invariant Updates(g, backEdges, inCycle, mask, order, states) && |states| == i + 1 && states[i] == m
      invariant Tracks(g, backEdges, inCycle, mask, order, states, m, ideal)
      invariant Distinct(order) ==> PaidOnce(order, i, paid)
    {
      var node, m' := order[i], m;
      ghost var ideal' := ideal;
      var moved := 0;
      if !inCycle[node] {
        m', moved := Lemma614Update(g, backEdges, allowed, node, m);
        if moved > 0 {
          MoveKeeps(g, dom, backEdges, mask, node, m, m', ideal, paid, moved);
          ideal' := MoveIdeal(g, backEdges, mask, node, ideal, moved);
          assert MovesLeast(g, backEdges, mask, node, m, m', moved);
        } else {
          NothingWraps(g, backEdges, mask, node, m);
        }
      }
      PaidMore(order, i, paid, moved);
      UpdatesMore(g, backEdges, inCycle, mask, order, states, m');
      TracksMore(g, backEdges, inCycle, mask, order, states, m, ideal, m', ideal');
      assert moved == 0 ==> paid[node := paid[node] + moved] == paid;
      m, ideal, paid, states := m', ideal', paid[node := paid[node] + moved], states + [m'];
      i := i + 1;
    }
    BalancedConserves(g, m, ideal, paid);
    if Distinct(order) {
      AllPaidOnce(order, i, paid);
      ConservesUnlessWrapped(g, backEdges, inCycle, mask, order, states, m, ideal, paid);
    }
  }

  /** One effective update, on the stored metering, the ideal one and what is paid ahead. */
  lemma MoveKeeps(
    g: seq<GasBlock>, dom: seq<set<nat>>, backEdges: seq<seq<nat>>, mask: set<nat>, node: nat,
    m: seq<nat>, m': seq<nat>, ideal: seq<nat>, paid: seq<nat>, x: nat)
    requires WellFormed(g) && |g| > 0 && NoCriticalEdges(g) && OnlyEntryAtStart(g)
    requires DominatorSets(g, dom) && BackEdgesOf(g, dom, backEdges) && |backEdges| == |g|
    requires forall v: nat :: v in mask <==> v < |g| && !OnCycle(g, v)
    requires node < |g| == |m| && !OnCycle(g, node) && Balanced(g, ideal, paid) && Stores(m, ideal) && |ideal| == |paid| == |g|
    requires LeastToMove(g, backEdges, mask, node, m, x) && Moved(g, backEdges, mask, node, m, m', x) && |m'| == |g|
    ensures forall v: nat :: v < |g| && Eligible(g, backEdges, mask, node, v) ==> x <= ideal[v]
    ensures var ideal' := MoveIdeal(g, backEdges, mask, node, ideal, x);
            && Balanced(g, ideal', paid[node := paid[node] + x]) && Stores(m', ideal') && SumAll(ideal') <= SumAll(ideal)
            && forall v: nat :: v < |g| ==>
                 (m'[v] == ideal'[v] <==> m[v] == ideal[v] && !(v == node && WrapsAt(g, backEdges, mask, node, m)))
  {
    hide WellFormed, NoCriticalEdges, DominatorSets, OnCycle, Uniform, BackEdgesOf, IsGasSensitiveTerminator;
    hide Edge, Eligible, Moved, Reaches, SumAll, WrapsAt, Balanced, Stores;
    EntryAtStart(g);
    OffCycleNoSelfEdge(g, node);
    MoveStores(g, backEdges, mask, node, m, m', ideal, x);
    if Reaches(g, 0, node) {
      UniformEligibility(g, dom, backEdges, mask, node);
    }
    var s: nat :| Eligible(g, backEdges, mask, node, s);
    UpdateKeepsBalance(g, backEdges, mask, node, ideal, paid, x);
    MoveLowersTotal(g, backEdges, mask, node, ideal, x, s);
    assert MovesLeast(g, backEdges, mask, node, m, m', x);
    MoveWraps(g, backEdges, mask, node, m, m', ideal, x);
  }

  /** When the entry can be reached again, no update touches a reachable block. */
  lemma LoopedEntryUpdate(
    g: seq<GasBlock>, dom: seq<set<nat>>, backEdges: seq<seq<nat>>, mask: set<nat>, node: nat,
    m: seq<nat>, m': seq<nat>, x: nat, v: nat)
    requires WellFormed(g) && OnlyEntryAtStart(g) && DominatorSets(g, dom) && BackEdgesOf(g, dom, backEdges)
    requires !EntryUnreached(g, 0) && node < |g| == |m| == |backEdges| && MovesLeast(g, backEdges, mask, node, m, m', x)
    requires v < |g| && Reaches(g, 0, v)
    ensures |m'| == |g| && m'[v] == m[v]
  {
    hide Reaches, PathFromTo, WellFormed, IsGasSensitiveTerminator;
    var s: nat :| Eligible(g, backEdges, mask, node, s);
    assert s !in dom[node];
    assert !Reaches(g, 0, node);
    if Eligible(g, backEdges, mask, node, v) {
      EligibleHasOnePred(g, backEdges, mask, node, v);
      ReachedThroughPred(g, v);
    }
  }

  lemma ReachedThroughPred(g: seq<GasBlock>, v: nat)
    requires Reaches(g, 0, v) && v != 0
    ensures exists u :: Edge(g, u, v) && Reaches(g, 0, u)
  {
    var p :| PathFromTo(g, p, 0, v);
    LastEdge(g, p, 0, v);
    assert Reaches(g, 0, p[|p| - 2]);
  }

  /** The metering of a program that can jump back to its first block is the block costs. */
  lemma {:induction false} LoopedEntryUnmetered(
    g: seq<GasBlock>, dom: seq<set<nat>>, backEdges: seq<seq<nat>>, inCycle: seq<bool>, mask: set<nat>, order: seq<nat>,
    states: seq<seq<nat>>, i: nat, v: nat)
    requires WellFormed(g) && OnlyEntryAtStart(g) && DominatorSets(g, dom) && BackEdgesOf(g, dom, backEdges)
    requires !EntryUnreached(g, 0) && |inCycle| == |g| == |backEdges| && Updates(g, backEdges, inCycle, mask, order, states)
    requires i < |states| && v < |g| && Reaches(g, 0, v)
    ensures |states[i]| == |g| && states[i][v] == g[v].cost
  {
    hide WellFormed, OnlyEntryAtStart, DominatorSets, BackEdgesOf, EntryUnreached, Reaches, MovesLeast, NothingToMove;
    if i > 0 {
      LoopedEntryUnmetered(g, dom, backEdges, inCycle, mask, order, states, i - 1, v);
      var node, m, m' := order[i - 1], states[i - 1], states[i];
      assert Updated(g, backEdges, inCycle, mask, node, m, states[i - 1 + 1]);
      if m' != m {
        var x: nat :| MovesLeast(g, backEdges, mask, node, m, m', x);
        LoopedEntryUpdate(g, dom, backEdges, mask, node, m, m', x, v);
      }
    }
  }

  lemma BackEdgesSize(g: seq<GasBlock>, dom: seq<set<nat>>, backEdges: seq<seq<nat>>)
    requires BackEdgesOf(g, dom, backEdges)
    ensures |backEdges| == |g|
  {
  }

  lemma EntryAtStart(g: seq<GasBlock>)
    requires |g| > 0 && OnlyEntryAtStart(g)
    ensures g[0].start == 0
  {
  }

  lemma OffCycleNoSelfEdge(g: seq<GasBlock>, node: nat)
    requires node < |g| && !OnCycle(g, node)
    ensures node !in g[node].succs
  {
    if node in g[node].succs {
      ReachesSelf(g, node);
      assert Edge(g, node, node);
    }
  }

  lemma StartsBalanced(g: seq<GasBlock>)
    requires |g| > 0 && forall v :: 0 <= v < |g| ==> g[v].cost < TWO64
    ensures Balanced(g, Costs(g), seq(|g|, _ => 0)) && Stores(Costs(g), Costs(g))
  {
  }

  lemma StartsTracked(
    g: seq<GasBlock>, backEdges: seq<seq<nat>>, inCycle: seq<bool>, mask: set<nat>, order: seq<nat>, paid: seq<nat>)
    requires |inCycle| == |g| == |backEdges| == |paid| && forall v :: 0 <= v < |paid| ==> paid[v] == 0
    ensures Tracks(g, backEdges, inCycle, mask, order, [Costs(g)], Costs(g), Costs(g)) && PaidOnce(order, 0, paid)
  {
    assert forall i: nat :: !Wraps(g, backEdges, inCycle, mask, order, [Costs(g)], i);
  }

  method NonCycleMask(inCycle: seq<bool>) returns (mask: set<nat>)
    ensures forall v: nat :: v in mask <==> v < |inCycle| && !inCycle[v]
  {
    mask := {};
    var id := 0;
    while id < |inCycle|
      invariant 0 <= id <= |inCycle|
      invariant forall v: nat :: v in mask <==> v < id && !inCycle[v]
    {
      if !inCycle[id] {
        mask := mask + {id};
      }
      id := id + 1;
    }
  }

  /** The metering of the split graph charges every complete path of the original graph its cost. */
  lemma OriginalPathsCharged(g: seq<GasBlock>, g': seq<GasBlock>, splits: seq<(nat, nat)>, m: seq<nat>, p: seq<nat>, v: nat)
    requires SplitOf(g, g', splits) && Conserves(g', m) && PathFromTo(g, p, 0, v) && v < |g| && SettlesHere(g[v])
    ensures PathSum(m, Expand(g, splits, p)) == PathSum(Costs(g), p)
  {
    ExpandIsPath(g, g', splits, p);
    forall i | 0 <= i < |p|
      ensures p[i] < |g|
    {
      PathInRange(g, p, i);
    }
    ExpandCost(g, g', splits, p);
    assert SameBlock(g[v], g'[v]) && SameDegree(g[v], g'[v]);
    assert SettlesHere(g'[v]);
  }
}
