/**
 Dominator sets by iteration to a fixpoint.

 The source anchors only blocks without (reachable) predecessors, so the result is the
 true dominator relation exactly when the entry block has no reachable predecessor, or is
 the only block. When it has one, every reachable block keeps the full set.

 The source's bit sets are modelled as sets of block ids.
 */
module Dominators {
  import opened Basics
  import opened GasBlocks
  import opened ControlFlow

  /** `d` lies on every path from the entry to `v`. */
  ghost predicate Dominates(g: seq<GasBlock>, entry: nat, d: nat, v: nat) {
    forall p :: PathFromTo(g, p, entry, v) ==> d in p
  }

  ghost predicate EntryUnreached(g: seq<GasBlock>, entry: nat) {
    forall u :: Edge(g, u, entry) ==> !Reaches(g, entry, u)
  }

  ghost predicate ReachableFrom(g: seq<GasBlock>, entry: nat, reachable: seq<bool>) {
    |reachable| == |g| && forall v :: 0 <= v < |g| ==> (reachable[v] <==> Reaches(g, entry, v))
  }

  /** The full set of block ids. */
  function All(g: seq<GasBlock>): (s: set<nat>) {
    NatsBelow(|g|)
  }

  /** A predecessor the iteration looks at. */
  predicate LivePred(g: seq<GasBlock>, reachable: seq<bool>, v: nat, u: nat)
    requires v < |g| && |reachable| == |g|
  {
    u in g[v].preds && u < |g| && reachable[u]
  }

  /** Blocks whose set the iteration recomputes. */
  predicate Iterated(g: seq<GasBlock>, reachable: seq<bool>, v: nat)
    requires v < |g| && |reachable| == |g|
  {
    reachable[v] && |g[v].preds| > 0
  }

  ghost predicate HasLivePred(g: seq<GasBlock>, reachable: seq<bool>, v: nat)
    requires v < |g| && |reachable| == |g|
  {
    exists u: nat :: LivePred(g, reachable, v, u)
  }

  /** `d` stays in the recomputed set of `v`. */
  ghost predicate InMeet(g: seq<GasBlock>, reachable: seq<bool>, dom: seq<set<nat>>, v: nat, d: nat)
    requires v < |g| && |reachable| == |dom| == |g|
  {
    d == v || (HasLivePred(g, reachable, v) && forall u: nat :: LivePred(g, reachable, v, u) ==> d in dom[u])
  }

  /** Recompute one set: the meet over live predecessors, and the block itself. */
  method Meet(g: seq<GasBlock>, reachable: seq<bool>, dom: seq<set<nat>>, v: nat) returns (newDom: set<nat>)
    requires v < |g| && |reachable| == |dom| == |g| && forall u :: 0 <= u < |g| ==> dom[u] <= All(g)
    ensures newDom <= All(g)
    ensures forall d :: d in newDom <==> InMeet(g, reachable, dom, v, d)
  {
    newDom := All(g);
    var hasPred := false;
    var i := 0;
    while i < |g[v].preds|
      invariant 0 <= i <= |g[v].preds| && newDom <= All(g)
      invariant hasPred <==> exists u :: u in g[v].preds[..i] && LivePred(g, reachable, v, u)
      invariant forall d :: d in newDom <==>
                  d in All(g) && forall u :: u in g[v].preds[..i] && LivePred(g, reachable, v, u) ==> d in dom[u]
    {
      var pred := g[v].preds[i];
      assert forall u :: u in g[v].preds[..i + 1] <==> u in g[v].preds[..i] || u == pred;
      if pred < |g| && reachable[pred] {
        assert LivePred(g, reachable, v, pred);
        hasPred := true;
        newDom := newDom * dom[pred];
      }
      i := i + 1;
    }
    assert g[v].preds[..i] == g[v].preds;
    if !hasPred {
      newDom := {};
    }
    newDom := newDom + {v};
  }

  /** Every set contains what recomputing it would give: the sets can only shrink. */
  ghost predicate Shrinking(g: seq<GasBlock>, reachable: seq<bool>, dom: seq<set<nat>>)
    requires |reachable| == |dom| == |g|
  {
    forall v: nat, d: nat :: v < |g| && d < |g| && Iterated(g, reachable, v) && InMeet(g, reachable, dom, v, d) ==> d in dom[v]
  }

  /** No set changes when recomputed. */
  ghost predicate Fixpoint(g: seq<GasBlock>, reachable: seq<bool>, dom: seq<set<nat>>)
    requires |reachable| == |dom| == |g|
  {
    forall v: nat, d: nat :: v < |g| && Iterated(g, reachable, v) ==> (d in dom[v] <==> InMeet(g, reachable, dom, v, d))
  }

  ghost predicate WithinAll(g: seq<GasBlock>, dom: seq<set<nat>>) {
    |dom| == |g| && forall v :: 0 <= v < |g| ==> dom[v] <= All(g) && v in dom[v]
  }

  ghost predicate Anchored(g: seq<GasBlock>, reachable: seq<bool>, dom: seq<set<nat>>)
    requires |reachable| == |dom| == |g|
  {
    forall v: nat :: v < |g| && !Iterated(g, reachable, v) ==> dom[v] == {v}
  }

  /** No true dominator is lost. */
  ghost predicate HoldsDominators(g: seq<GasBlock>, entry: nat, reachable: seq<bool>, dom: seq<set<nat>>)
    requires |reachable| == |dom| == |g|
  {
    forall v: nat, d: nat :: v < |g| && reachable[v] && Dominates(g, entry, d, v) ==> d in dom[v]
  }

  /** When the entry has a reachable predecessor nothing anchors the sets. */
  ghost predicate FullIfUnanchored(g: seq<GasBlock>, entry: nat, reachable: seq<bool>, dom: seq<set<nat>>)
    requires |reachable| == |dom| == |g|
  {
    !EntryUnreached(g, entry) ==> forall v: nat :: v < |g| && reachable[v] ==> dom[v] == All(g)
  }

  ghost predicate Invariant(g: seq<GasBlock>, entry: nat, reachable: seq<bool>, dom: seq<set<nat>>) {
    && |reachable| == |dom| == |g|
    && WithinAll(g, dom) && Anchored(g, reachable, dom) && Shrinking(g, reachable, dom)
    && HoldsDominators(g, entry, reachable, dom) && FullIfUnanchored(g, entry, reachable, dom)
  }

  function Total(dom: seq<set<nat>>): (n: nat) {
    if dom == [] then 0 else |dom[0]| + Total(dom[1..])
  }

  lemma {:induction false} TotalShrinks(dom: seq<set<nat>>, v: nat, s: set<nat>)
    requires v < |dom| && s < dom[v]
    ensures Total(dom[v := s]) < Total(dom)
  {
    if v == 0 {
      assert dom[v := s][1..] == dom[1..];
      SmallerSet(s, dom[v]);
    } else {
      assert dom[v := s][1..] == dom[1..][v - 1 := s];
      TotalShrinks(dom[1..], v - 1, s);
    }
  }

  lemma SmallerSet(a: set<nat>, b: set<nat>)
    requires a < b
    ensures |a| < |b|
  {
    var x :| x in b && x !in a;
    assert b == a + (b - a) && x in b - a;
    assert |b| == |a| + |b - a|;
  }

  lemma LastEdge(g: seq<GasBlock>, p: seq<nat>, entry: nat, v: nat)
    requires PathFromTo(g, p, entry, v) && |p| > 1
    ensures Edge(g, p[|p| - 2], v) && PathFromTo(g, p[..|p| - 1], entry, p[|p| - 2])
  {
    assert Edge(g, p[|p| - 2], p[|p| - 2 + 1]);
    SubPath(g, p, 0, |p| - 2);
    assert p[0..|p| - 2 + 1] == p[..|p| - 1];
  }

  /** A reachable block other than an unreached entry has a live predecessor. */
  lemma ReachableHasLivePred(g: seq<GasBlock>, entry: nat, reachable: seq<bool>, v: nat)
    requires WellFormed(g) && ReachableFrom(g, entry, reachable) && v < |g| && reachable[v]
    requires v != entry || !EntryUnreached(g, entry)
    ensures HasLivePred(g, reachable, v) && Iterated(g, reachable, v)
  {
    var u: nat;
    if v != entry {
      var p :| PathFromTo(g, p, entry, v);
      LastEdge(g, p, entry, v);
      u := p[|p| - 2];
      assert Reaches(g, entry, u);
    } else {
      u :| Edge(g, u, entry) && Reaches(g, entry, u);
    }
    assert LivePred(g, reachable, v, u);
  }

  /** A dominator of `v` other than `v` dominates every live predecessor of `v`. */
  lemma DominatesPred(g: seq<GasBlock>, entry: nat, reachable: seq<bool>, d: nat, v: nat, u: nat)
    requires WellFormed(g) && |reachable| == |g| && v < |g| && LivePred(g, reachable, v, u)
    requires Dominates(g, entry, d, v) && d != v
    ensures Dominates(g, entry, d, u)
  {
    forall p | PathFromTo(g, p, entry, u)
      ensures d in p
    {
      assert PathFromTo(g, [u, v], u, v);
      JoinPaths(g, p, [u, v], entry, u, v);
      assert p + [u, v][1..] == p + [v];
    }
  }

  lemma OnlyEntryDominatesEntry(g: seq<GasBlock>, entry: nat, d: nat)
    requires entry < |g| && Dominates(g, entry, d, entry)
    ensures d == entry
  {
    assert PathFromTo(g, [entry], entry, entry);
    assert d in [entry];
  }

  /** True dominators survive a recomputation. */
  lemma MeetHoldsDominators(g: seq<GasBlock>, entry: nat, reachable: seq<bool>, dom: seq<set<nat>>, v: nat, d: nat)
    requires WellFormed(g) && ReachableFrom(g, entry, reachable) && |dom| == |g|
    requires HoldsDominators(g, entry, reachable, dom)
    requires v < |g| && reachable[v] && Dominates(g, entry, d, v)
    ensures InMeet(g, reachable, dom, v, d)
  {
    if v == entry {
      OnlyEntryDominatesEntry(g, entry, d);
    } else if d != v {
      forall u: nat | LivePred(g, reachable, v, u)
        ensures d in dom[u]
      {
        DominatesPred(g, entry, reachable, d, v, u);
      }
      ReachableHasLivePred(g, entry, reachable, v);
    }
  }

  /** With `v`'s set replaced by a smaller one, nothing new enters any recomputed set. */
  lemma InMeetMonotone(g: seq<GasBlock>, reachable: seq<bool>, dom: seq<set<nat>>, v: nat, s: set<nat>, w: nat, d: nat)
    requires |reachable| == |dom| == |g| && v < |g| && w < |g| && s <= dom[v]
    requires InMeet(g, reachable, dom[v := s], w, d)
    ensures InMeet(g, reachable, dom, w, d)
  {
    if d != w {
      forall u: nat | LivePred(g, reachable, w, u)
        ensures d in dom[u]
      {
        assert d in dom[v := s][u];
      }
    }
  }

  lemma UpdateKeepsInvariant(g: seq<GasBlock>, entry: nat, reachable: seq<bool>, dom: seq<set<nat>>, v: nat, newDom: set<nat>)
    requires WellFormed(g) && ReachableFrom(g, entry, reachable) && Invariant(g, entry, reachable, dom)
    requires v < |g| && Iterated(g, reachable, v) && newDom <= All(g)
    requires forall d: nat :: d in newDom <==> InMeet(g, reachable, dom, v, d)
    ensures newDom <= dom[v] && Invariant(g, entry, reachable, dom[v := newDom])
  {
    var dom' := dom[v := newDom];
    forall d | d in newDom
      ensures d in dom[v]
    {
      assert InMeet(g, reachable, dom, v, d);
    }
    assert Shrinking(g, reachable, dom') by {
      forall w: nat, d: nat | w < |g| && d < |g| && Iterated(g, reachable, w) && InMeet(g, reachable, dom', w, d)
        ensures d in dom'[w]
      {
        InMeetMonotone(g, reachable, dom, v, newDom, w, d);
      }
    }
    assert HoldsDominators(g, entry, reachable, dom') by {
      forall w: nat, d: nat | w < |g| && reachable[w] && Dominates(g, entry, d, w)
        ensures d in dom'[w]
      {
        if w == v {
          MeetHoldsDominators(g, entry, reachable, dom, v, d);
        }
      }
    }
    if !EntryUnreached(g, entry) {
      ReachableHasLivePred(g, entry, reachable, v);
      assert forall d: nat :: d in All(g) ==> InMeet(g, reachable, dom, v, d);
    }
  }

  lemma InitialInvariant(g: seq<GasBlock>, entry: nat, reachable: seq<bool>, dom: seq<set<nat>>)
    requires WellFormed(g) && ReachableFrom(g, entry, reachable) && |dom| == |g| && entry < |g|
    requires forall v: nat :: v < |g| ==> dom[v] == if Iterated(g, reachable, v) then All(g) else {v}
    ensures Invariant(g, entry, reachable, dom)
  {
    forall v: nat, d: nat | v < |g| && reachable[v] && Dominates(g, entry, d, v)
      ensures d in dom[v]
    {
      var p :| PathFromTo(g, p, entry, v);
      assert d in p;
      var i :| 0 <= i < |p| && p[i] == d;
      PathInRange(g, p, i);
      if !Iterated(g, reachable, v) {
        if v != entry {
          ReachableHasLivePred(g, entry, reachable, v);
        }
        assert PathFromTo(g, [entry], entry, v);
      }
    }
    if !EntryUnreached(g, entry) {
      forall v: nat | v < |g| && reachable[v]
        ensures dom[v] == All(g)
      {
        ReachableHasLivePred(g, entry, reachable, v);
      }
    }
  }

  /** The computed sets are the dominator relation on reachable blocks. */
  ghost predicate Exact(g: seq<GasBlock>, entry: nat, dom: seq<set<nat>>)
    requires |dom| == |g|
  {
    forall v: nat, d: nat :: v < |g| && Reaches(g, entry, v) ==> (d in dom[v] <==> Dominates(g, entry, d, v))
  }

  lemma UnreachedEntryAlone(g: seq<GasBlock>, entry: nat, reachable: seq<bool>, dom: seq<set<nat>>)
    requires WellFormed(g) && ReachableFrom(g, entry, reachable) && Invariant(g, entry, reachable, dom)
    requires Fixpoint(g, reachable, dom) && EntryUnreached(g, entry) && entry < |g|
    ensures dom[entry] == {entry}
  {
    forall u: nat
      ensures !LivePred(g, reachable, entry, u)
    {
      if LivePred(g, reachable, entry, u) {
        assert Edge(g, u, entry);
      }
    }
    forall d | d in dom[entry]
      ensures d == entry
    {
      assert Iterated(g, reachable, entry) ==> InMeet(g, reachable, dom, entry, d);
    }
  }

  /** At a fixpoint anchored at the entry, a member of `dom[v]` is on every path to `v`. */
  lemma {:induction false} FixpointDominates(
    g: seq<GasBlock>, entry: nat, reachable: seq<bool>, dom: seq<set<nat>>, p: seq<nat>, v: nat, d: nat)
    requires WellFormed(g) && ReachableFrom(g, entry, reachable) && Invariant(g, entry, reachable, dom)
    requires Fixpoint(g, reachable, dom) && EntryUnreached(g, entry)
    requires PathFromTo(g, p, entry, v) && v < |g| && d in dom[v]
    ensures d in p
    decreases |p|
  {
    if |p| == 1 {
      UnreachedEntryAlone(g, entry, reachable, dom);
    } else {
      assert Reaches(g, entry, v);
      if d != v {
        LastEdge(g, p, entry, v);
        var u, q := p[|p| - 2], p[..|p| - 1];
        assert Reaches(g, entry, u);
        assert LivePred(g, reachable, v, u);
        assert InMeet(g, reachable, dom, v, d);
        FixpointDominates(g, entry, reachable, dom, q, u, d);
      }
    }
  }

  /** The fixpoint is exact if and only if the entry has no reachable predecessor or is the only block. */
  lemma ExactIff(g: seq<GasBlock>, entry: nat, reachable: seq<bool>, dom: seq<set<nat>>)
    requires WellFormed(g) && ReachableFrom(g, entry, reachable) && Invariant(g, entry, reachable, dom)
    requires Fixpoint(g, reachable, dom) && entry < |g|
    ensures Exact(g, entry, dom) <==> EntryUnreached(g, entry) || |g| == 1
  {
    if EntryUnreached(g, entry) {
      forall v: nat, d: nat | v < |g| && Reaches(g, entry, v)
        ensures d in dom[v] <==> Dominates(g, entry, d, v)
      {
        if d in dom[v] {
          forall p | PathFromTo(g, p, entry, v)
            ensures d in p
          {
            FixpointDominates(g, entry, reachable, dom, p, v, d);
          }
        }
      }
    } else if |g| == 1 {
      forall v: nat, d: nat | v < |g| && d in dom[v]
        ensures Dominates(g, entry, d, v)
      {
        assert v == entry == d;
      }
    } else {
      ReachesSelf(g, entry);
      assert dom[entry] == All(g);
      var other := if entry == 0 then 1 else 0;
      assert other in dom[entry];
      assert PathFromTo(g, [entry], entry, entry);
      assert other !in [entry];
    }
  }

  /**
   Dominator sets. The iteration stops because the sets only shrink; its result is exact
   if and only if the entry has no reachable predecessor (or there is a single block), and
   otherwise every reachable block keeps the full set.
   */
  method ComputeDominators(g: seq<GasBlock>, ghost entry: nat, reachable: seq<bool>) returns (dom: seq<set<nat>>)
    requires WellFormed(g) && entry < |g| && ReachableFrom(g, entry, reachable)
    ensures |dom| == |g|
    ensures Exact(g, entry, dom) <==> EntryUnreached(g, entry) || |g| == 1
    ensures !EntryUnreached(g, entry) ==> forall v :: 0 <= v < |g| && Reaches(g, entry, v) ==> dom[v] == All(g)
    ensures forall v :: 0 <= v < |g| && !Reaches(g, entry, v) ==> dom[v] == {v}
  {
    hide Invariant, Fixpoint, InMeet, Exact, EntryUnreached, Reaches, WellFormed, Total;
    dom := seq(|g|, v requires 0 <= v < |g| => if reachable[v] && |g[v].preds| > 0 then All(g) else {v});
    InitialInvariant(g, entry, reachable, dom);
    var changed := true;
    while changed
      invariant |dom| == |g| && Invariant(g, entry, reachable, dom)
      invariant !changed ==> Fixpoint(g, reachable, dom)
      decreases Total(dom), changed
    {
      ghost var before := dom;
      changed := false;
      var node := 0;
      while node < |g|
        invariant 0 <= node <= |g| && |dom| == |g| && Invariant(g, entry, reachable, dom)
        invariant if changed then Total(dom) < Total(before) else dom == before
        invariant !changed ==> StableBelow(g, reachable, dom, node)
      {
        if reachable[node] && |g[node].preds| > 0 {
          InvariantShape(g, entry, reachable, dom);
          var newDom := Meet(g, reachable, dom, node);
          UpdateKeepsInvariant(g, entry, reachable, dom, node, newDom);
          if newDom != dom[node] {
            TotalShrinks(dom, node, newDom);
            dom := dom[node := newDom];
            changed := true;
          }
        }
        node := node + 1;
      }
      if !changed {
        AllStable(g, reachable, dom);
      }
    }
    ExactIff(g, entry, reachable, dom);
    InvariantShape(g, entry, reachable, dom);
  }

  ghost predicate StableBelow(g: seq<GasBlock>, reachable: seq<bool>, dom: seq<set<nat>>, n: nat)
    requires |reachable| == |dom| == |g|
  {
    forall v: nat, d: nat :: v < |g| && v < n && Iterated(g, reachable, v) ==> (d in dom[v] <==> InMeet(g, reachable, dom, v, d))
  }

  lemma AllStable(g: seq<GasBlock>, reachable: seq<bool>, dom: seq<set<nat>>)
    requires |reachable| == |dom| == |g| && StableBelow(g, reachable, dom, |g|)
    ensures Fixpoint(g, reachable, dom)
  {
  }

  lemma InvariantShape(g: seq<GasBlock>, entry: nat, reachable: seq<bool>, dom: seq<set<nat>>)
    requires Invariant(g, entry, reachable, dom)
    ensures WithinAll(g, dom) && Anchored(g, reachable, dom) && FullIfUnanchored(g, entry, reachable, dom)
  {
  }
}
