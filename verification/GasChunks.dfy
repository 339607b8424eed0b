/**
 The bytecode cache as a whole: the block graph, and the arrays the interpreter reads.
 */
module GasChunks {
  import opened Basics
  import opened Bytecode
  import opened PushDecoding
  import opened GasBlocks
  import opened MemoryGas
  import opened Semantics
  import opened ChunkedInterpreter
  import opened ControlFlow
  import opened Cycles
  import opened Dominators
  import opened CriticalEdges
  import opened Metering

  /** What the construction of the blocks promises. */
  ghost predicate BlocksOf(code: seq<byte>, table: CostTable, blocks: seq<GasBlock>, blockAtPc: seq<nat>) {
    && |blocks| <= |code| == |blockAtPc|
    && (forall i :: 0 <= i < |blocks| ==> DescribesChunk(code, table, blocks[i]))
    && (exists e :: e >= |code| && Tiles(code, blocks, e))
    && (forall p :: 0 <= p < |code| ==> MapsPc(code, blocks, blockAtPc, p))
  }

  lemma {:induction false} StartsIncrease(code: seq<byte>, blocks: seq<GasBlock>, e: nat, i: nat, j: nat)
    requires Tiles(code, blocks, e) && i < j < |blocks|
    ensures blocks[i].start < blocks[j].start
    decreases j - i
  {
    assert blocks[j - 1].end == blocks[j - 1 + 1].start;
    if i < j - 1 {
      StartsIncrease(code, blocks, e, i, j - 1);
    }
  }

  /** Blocks are named by their start. */
  lemma UniqueStart(code: seq<byte>, table: CostTable, blocks: seq<GasBlock>, blockAtPc: seq<nat>, j: nat)
    requires BlocksOf(code, table, blocks, blockAtPc) && j < |blocks|
    ensures blocks[j].start < |code| && blockAtPc[blocks[j].start] == j
  {
    var e :| e >= |code| && Tiles(code, blocks, e);
    var p := blocks[j].start;
    assert DescribesChunk(code, table, blocks[j]);
    assert MapsPc(code, blocks, blockAtPc, p);
    var k := blockAtPc[p];
    if k < j {
      StartsIncrease(code, blocks, e, k, j);
    } else if j < k {
      StartsIncrease(code, blocks, e, j, k);
    }
  }

  /** The maps of the cache that jump resolution reads. */
  ghost predicate MapsOf(code: seq<byte>, jumpDest: seq<bool>, pushValue: seq<word>) {
    && |jumpDest| == |pushValue| == |code|
    && (forall p :: 0 <= p < |code| ==> jumpDest[p] == ValidJumpDest(code, p))
    && (forall p :: 0 <= p < |code| ==> pushValue[p] == if Follows(code, 0, p) then PushImmediate(code, p) else 0)
  }

  function Resolve(jumpDest: seq<bool>, pushValue: seq<word>, b: GasBlock): (d: Option<nat>)
    requires |jumpDest| == |pushValue|
  {
    if b.prevPc < |pushValue| || b.prevPc == UINT32_MAX then ResolveConstantJumpTarget(jumpDest, pushValue, b) else None
  }

  /** The instruction at `p` is a jump directly after a PUSH of the legal destination `d`. */
  ghost predicate ConstantJump(code: seq<byte>, p: nat, d: nat) {
    && p < |code| && IsJump(code[p]) && ValidJumpDest(code, d)
    && exists q: nat :: PushBefore(code, q, p) && PushImmediate(code, q) == d
  }

  predicate PushBefore(code: seq<byte>, q: nat, p: nat) {
    q < |code| && Follows(code, 0, q) && IsPush(code[q]) && Next(code, q) == p
  }

  /** Two instructions that end at the same offset are the same. */
  lemma SamePredecessor(code: seq<byte>, q: nat, r: nat)
    requires q < |code| && r < |code| && Follows(code, 0, q) && Follows(code, 0, r) && Next(code, q) == Next(code, r)
    ensures q == r
  {
    if q < r {
      NoBoundaryInside(code, q, r);
    } else if r < q {
      NoBoundaryInside(code, r, q);
    }
  }

  /** The jump that ends a chunk and comes after a PUSH does not start the chunk: its predecessor is recorded. */
  lemma PushBeforeJump(code: seq<byte>, table: CostTable, b: GasBlock, q: nat)
    requires DescribesChunk(code, table, b) && IsJump(code[b.lastPc]) && PushBefore(code, q, b.lastPc)
    ensures b.lastPc != b.start && b.prevPc == q
  {
    if b.lastPc == b.start {
      AfterTerminatorAt(code, 0, q);
    } else {
      FollowsTransitive(code, 0, b.start, b.prevPc);
      SamePredecessor(code, q, b.prevPc);
    }
  }

  /** A block's jump is resolved to `d` if and only if the code pushes the legal destination `d` right before it. */
  lemma ResolvedIff(
    code: seq<byte>, table: CostTable, jumpDest: seq<bool>, pushValue: seq<word>, b: GasBlock, d: nat)
    requires MapsOf(code, jumpDest, pushValue) && DescribesChunk(code, table, b) && |code| <= MAX_CODE_SIZE
    ensures Resolve(jumpDest, pushValue, b) == Some(d) <==> ConstantJump(code, b.lastPc, d)
    ensures Resolve(jumpDest, pushValue, b) == Some(d) ==> b.lastPc != b.start && IsPush(code[b.prevPc])
  {
    hide ChunkEnd, ChunkCost, PushImmediate;
    FollowsTransitive(code, 0, b.start, b.lastPc);
    if Resolve(jumpDest, pushValue, b) == Some(d) {
      FollowsTransitive(code, 0, b.start, b.prevPc);
      assert PushBefore(code, b.prevPc, b.lastPc);
    }
    if ConstantJump(code, b.lastPc, d) {
      var q: nat :| PushBefore(code, q, b.lastPc) && PushImmediate(code, q) == d;
      PushBeforeJump(code, table, b, q);
    }
  }

  predicate FallsThrough(code: seq<byte>, b: GasBlock) {
    !IsControlFlowTerminator(b.lastOpcode) && b.end < |code|
  }

  /** Where control can go from block `b`: the offset after it, or its resolved jump target. */
  predicate LeadsTo(code: seq<byte>, jumpDest: seq<bool>, pushValue: seq<word>, b: GasBlock, p: nat)
    requires |jumpDest| == |pushValue|
  {
    || (FallsThrough(code, b) && p == b.end)
    || (IsJump(b.lastOpcode) && Resolve(jumpDest, pushValue, b) == Some(p))
  }

  predicate AllJumpsResolved(jumpDest: seq<bool>, pushValue: seq<word>, blocks: seq<GasBlock>)
    requires |jumpDest| == |pushValue|
  {
    forall i :: 0 <= i < |blocks| && IsJump(blocks[i].lastOpcode) ==> Resolve(jumpDest, pushValue, blocks[i]).Some?
  }

  lemma {:induction false} BlockAround(code: seq<byte>, blocks: seq<GasBlock>, e: nat, n: nat, p: nat) returns (i: nat)
    requires Tiles(code, blocks, e) && n < |blocks| && blocks[n].start <= p < e
    ensures i < |blocks| && blocks[i].start <= p < blocks[i].end
    decreases |blocks| - n
  {
    i := n;
    if n + 1 < |blocks| {
      assert blocks[n].end == blocks[n + 1].start;
      if p >= blocks[n].end {
        i := BlockAround(code, blocks, e, n + 1, p);
      }
    }
  }

  /** An instruction that ends a chunk is the last one of a block. */
  lemma TerminatorEndsBlock(
    code: seq<byte>, table: CostTable, blocks: seq<GasBlock>, blockAtPc: seq<nat>, p: nat) returns (i: nat)
    requires BlocksOf(code, table, blocks, blockAtPc) && p < |code| && Follows(code, 0, p) && IsGasChunkTerminator(code[p])
    ensures i < |blocks| && blocks[i].lastPc == p
  {
    hide MapsPc, ChunkEnd, IsGasChunkTerminator, Follows, ChunkCost;
    var e :| e >= |code| && Tiles(code, blocks, e);
    i := BlockAround(code, blocks, e, 0, p);
    var b := blocks[i];
    assert DescribesChunk(code, table, b);
    FollowsLinear(code, 0, b.start, p);
    ChunkInterior(code, b.start, p);
    FollowsTransitive(code, 0, b.start, b.lastPc);
    SamePredecessor(code, p, b.lastPc);
  }

  /** The instruction at `p` is a jump that is not directly preceded by a PUSH of a legal destination. */
  ghost predicate DynamicJump(code: seq<byte>, p: nat) {
    p < |code| && Follows(code, 0, p) && IsJump(code[p]) && forall d: nat :: !ConstantJump(code, p, d)
  }

  /** Every block's jump is resolved if and only if the code has no such jump. */
  lemma ResolvedIffNoneDynamic(
    code: seq<byte>, table: CostTable, blocks: seq<GasBlock>, blockAtPc: seq<nat>,
    jumpDest: seq<bool>, pushValue: seq<word>)
    requires BlocksOf(code, table, blocks, blockAtPc) && MapsOf(code, jumpDest, pushValue) && |code| <= MAX_CODE_SIZE
    ensures AllJumpsResolved(jumpDest, pushValue, blocks) <==> forall p: nat :: !DynamicJump(code, p)
  {
    hide Resolve, ConstantJump, Follows, MapsPc, Tiles, ChunkEnd, ChunkCost;
    if AllJumpsResolved(jumpDest, pushValue, blocks) {
      forall p: nat
        ensures !DynamicJump(code, p)
      {
        if p < |code| && Follows(code, 0, p) && IsJump(code[p]) {
          var i := TerminatorEndsBlock(code, table, blocks, blockAtPc, p);
          assert DescribesChunk(code, table, blocks[i]);
          ResolvedIff(code, table, jumpDest, pushValue, blocks[i], Resolve(jumpDest, pushValue, blocks[i]).value);
        }
      }
    } else {
      var i :| 0 <= i < |blocks| && IsJump(blocks[i].lastOpcode) && Resolve(jumpDest, pushValue, blocks[i]).None?;
      assert DescribesChunk(code, table, blocks[i]);
      FollowsTransitive(code, 0, blocks[i].start, blocks[i].lastPc);
      forall d: nat
        ensures !ConstantJump(code, blocks[i].lastPc, d)
      {
        ResolvedIff(code, table, jumpDest, pushValue, blocks[i], d);
      }
      assert DynamicJump(code, blocks[i].lastPc);
    }
  }

  method HasDynamicJump(
    ghost code: seq<byte>, ghost table: CostTable, jumpDest: seq<bool>, pushValue: seq<word>,
    blocks: seq<GasBlock>, ghost blockAtPc: seq<nat>) returns (dynamic: bool)
    requires BlocksOf(code, table, blocks, blockAtPc) && MapsOf(code, jumpDest, pushValue) && |code| <= MAX_CODE_SIZE
    ensures dynamic <==> exists p: nat :: DynamicJump(code, p)
    ensures dynamic <==> !AllJumpsResolved(jumpDest, pushValue, blocks)
  {
    hide BlocksOf, DynamicJump, Resolve;
    ResolvedIffNoneDynamic(code, table, blocks, blockAtPc, jumpDest, pushValue);
    dynamic := false;
    var i := 0;
    while i < |blocks|
      invariant 0 <= i <= |blocks|
      invariant AllJumpsResolved(jumpDest, pushValue, blocks[..i])
    {
      if IsJump(blocks[i].lastOpcode) && Resolve(jumpDest, pushValue, blocks[i]).None? {
        return true;
      }
      i := i + 1;
    }
    assert blocks[..i] == blocks;
  }

  /** `g` is the blocks with exactly the edges out of blocks below `n`. */
  ghost predicate CfgUpTo(
    code: seq<byte>, jumpDest: seq<bool>, pushValue: seq<word>, blocks: seq<GasBlock>, g: seq<GasBlock>, n: nat)
    requires |jumpDest| == |pushValue|
  {
    && |g| == |blocks| && WellFormed(g)
    && (forall i :: 0 <= i < |g| ==> SameBlock(blocks[i], g[i]))
    && (forall i: nat, j: nat :: Edge(g, i, j) <==>
          i < n && i < |g| && j < |g| && LeadsTo(code, jumpDest, pushValue, blocks[i], blocks[j].start))
  }

  /** A target of a block is a chunk start, so it names a block. */
  lemma TargetIsBlock(
    code: seq<byte>, table: CostTable, blocks: seq<GasBlock>, blockAtPc: seq<nat>,
    jumpDest: seq<bool>, pushValue: seq<word>, i: nat, p: nat)
    requires BlocksOf(code, table, blocks, blockAtPc) && MapsOf(code, jumpDest, pushValue) && i < |blocks|
    requires LeadsTo(code, jumpDest, pushValue, blocks[i], p)
    ensures p < |code| && blockAtPc[p] < |blocks| && blocks[blockAtPc[p]].start == p
  {
    assert DescribesChunk(code, table, blocks[i]);
    if FallsThrough(code, blocks[i]) && p == blocks[i].end {
      ChunkEndIsStart(code, blocks[i].start);
    }
    assert IsChunkStart(code, p);
    assert MapsPc(code, blocks, blockAtPc, p);
  }

  /** `g` is the blocks with some edges added. */
  ghost predicate EdgesOver(blocks: seq<GasBlock>, g: seq<GasBlock>) {
    |g| == |blocks| && WellFormed(g) && forall i :: 0 <= i < |g| ==> SameBlock(blocks[i], g[i])
  }

  /** Add the edge from block `i` to the block that starts at `p`. */
  method AddTarget(
    ghost code: seq<byte>, ghost table: CostTable, ghost blocks: seq<GasBlock>, blockAtPc: seq<nat>,
    ghost jumpDest: seq<bool>, ghost pushValue: seq<word>, g: seq<GasBlock>, i: nat, p: nat) returns (g': seq<GasBlock>)
    requires BlocksOf(code, table, blocks, blockAtPc) && MapsOf(code, jumpDest, pushValue) && i < |blocks|
    requires LeadsTo(code, jumpDest, pushValue, blocks[i], p) && p < |blockAtPc| && EdgesOver(blocks, g)
    requires |code| <= MAX_CODE_SIZE
    ensures EdgesOver(blocks, g')
    ensures forall u: nat, v: nat :: Edge(g', u, v) <==> Edge(g, u, v) || (u == i && v < |blocks| && blocks[v].start == p)
  {
    hide LeadsTo, WellFormed, AddEdge, MapsPc, DescribesChunk, Tiles;
    assert |blocks| <= |code|;
    hide BlocksOf, MapsOf;
    TargetIsBlock(code, table, blocks, blockAtPc, jumpDest, pushValue, i, p);
    forall v: nat | v < |blocks|
      ensures blocks[v].start == p <==> v == blockAtPc[p]
    {
      UniqueStart(code, table, blocks, blockAtPc, v);
    }
    var succ := blockAtPc[p];
    g' := g;
    if succ != UINT32_MAX {
      AddEdgeKeeps(g, i, succ);
      g' := AddEdge(g, i, succ);
    }
  }

  /** Add the edges out of block `i`: to the next block unless control stops, and to a resolved jump target. */
  method AddBlockEdges(
    code: seq<byte>, ghost table: CostTable, blocks: seq<GasBlock>, blockAtPc: seq<nat>,
    jumpDest: seq<bool>, pushValue: seq<word>, g: seq<GasBlock>, i: nat) returns (g': seq<GasBlock>)
    requires BlocksOf(code, table, blocks, blockAtPc) && MapsOf(code, jumpDest, pushValue) && i < |blocks|
    requires |code| <= MAX_CODE_SIZE && EdgesOver(blocks, g)
    ensures EdgesOver(blocks, g')
    ensures forall u: nat, v: nat :: Edge(g', u, v) <==>
              Edge(g, u, v) || (u == i && v < |blocks| && LeadsTo(code, jumpDest, pushValue, blocks[i], blocks[v].start))
  {
    hide WellFormed, Edge, EdgesOver, ResolveConstantJumpTarget, MapsPc, Tiles, DescribesChunk;
    var b := blocks[i];
    g' := g;
    if !IsControlFlowTerminator(b.lastOpcode) && b.end < |code| {
      assert LeadsTo(code, jumpDest, pushValue, b, b.end);
      g' := AddTarget(code, table, blocks, blockAtPc, jumpDest, pushValue, g', i, b.end);
    }
    if IsJump(b.lastOpcode) {
      var dest := Resolve(jumpDest, pushValue, b);
      if dest.Some? {
        assert LeadsTo(code, jumpDest, pushValue, b, dest.value);
        TargetIsBlock(code, table, blocks, blockAtPc, jumpDest, pushValue, i, dest.value);
        g' := AddTarget(code, table, blocks, blockAtPc, jumpDest, pushValue, g', i, dest.value);
      }
    }
  }

  /** The control-flow graph when every jump is resolved. */
  method BuildCfg(
    code: seq<byte>, ghost table: CostTable, blocks: seq<GasBlock>, blockAtPc: seq<nat>,
    jumpDest: seq<bool>, pushValue: seq<word>) returns (g: seq<GasBlock>)
    requires BlocksOf(code, table, blocks, blockAtPc) && MapsOf(code, jumpDest, pushValue)
    requires |code| <= MAX_CODE_SIZE
    ensures CfgUpTo(code, jumpDest, pushValue, blocks, g, |blocks|)
  {
    g := blocks;
    assert forall i :: 0 <= i < |blocks| ==> DescribesChunk(code, table, blocks[i]);
    assert forall i: nat, j: nat :: !Edge(g, i, j);
    var i := 0;
    hide LeadsTo, WellFormed, BlocksOf, DescribesChunk, Edge;
    assert EdgesOver(blocks, g) by { NoEdgesYet(code, table, blocks); }
    while i < |blocks|
      invariant 0 <= i <= |blocks| && CfgUpTo(code, jumpDest, pushValue, blocks, g, i)
    {
      g := AddBlockEdges(code, table, blocks, blockAtPc, jumpDest, pushValue, g, i);
      i := i + 1;
    }
  }

  lemma NoEdgesYet(code: seq<byte>, table: CostTable, blocks: seq<GasBlock>)
    requires forall i :: 0 <= i < |blocks| ==> DescribesChunk(code, table, blocks[i])
    ensures EdgesOver(blocks, blocks)
  {
  }

  /** Control can go from the instruction at `p` to the offset `q`: forward, or by a constant jump. */
  ghost predicate Goes(code: seq<byte>, p: nat, q: nat) {
    p < |code| && ((!IsControlFlowTerminator(code[p]) && q == Next(code, p) && q < |code|) || ConstantJump(code, p, q))
  }

  /** The edges, from the code alone. */
  lemma CfgFromCode(
    code: seq<byte>, table: CostTable, blocks: seq<GasBlock>, blockAtPc: seq<nat>,
    jumpDest: seq<bool>, pushValue: seq<word>, g: seq<GasBlock>, i: nat, j: nat)
    requires BlocksOf(code, table, blocks, blockAtPc) && MapsOf(code, jumpDest, pushValue) && |code| <= MAX_CODE_SIZE
    requires CfgUpTo(code, jumpDest, pushValue, blocks, g, |blocks|) && i < |blocks| && j < |blocks|
    ensures Edge(g, i, j) <==> Goes(code, blocks[i].lastPc, blocks[j].start)
  {
    hide Resolve, ConstantJump, MapsPc, Tiles, ChunkEnd, ChunkCost, WellFormed, Follows;
    assert DescribesChunk(code, table, blocks[i]);
    ResolvedIff(code, table, jumpDest, pushValue, blocks[i], blocks[j].start);
    NotAJump(code, blocks[i].lastPc, blocks[j].start);
  }

  lemma NotAJump(code: seq<byte>, p: nat, d: nat)
    ensures ConstantJump(code, p, d) ==> p < |code| && IsJump(code[p])
  {
  }

  /** A block with two successors falls through, so it ends inside the code. */
  lemma BranchEndsInside(
    code: seq<byte>, table: CostTable, blocks: seq<GasBlock>, blockAtPc: seq<nat>,
    jumpDest: seq<bool>, pushValue: seq<word>, g: seq<GasBlock>, u: nat)
    requires BlocksOf(code, table, blocks, blockAtPc) && |jumpDest| == |pushValue|
    requires CfgUpTo(code, jumpDest, pushValue, blocks, g, |blocks|) && u < |g| && |g[u].succs| > 1
    ensures g[u].end < |code|
  {
    hide BlocksOf, Resolve;
    var v, w := g[u].succs[0], g[u].succs[1];
    assert v in g[u].succs && w in g[u].succs;
    assert Distinct(g[u].succs) && v != w;
    assert Edge(g, u, v) && Edge(g, u, w);
    assert SameBlock(blocks[u], g[u]);
    assert LeadsTo(code, jumpDest, pushValue, blocks[u], blocks[v].start);
    assert LeadsTo(code, jumpDest, pushValue, blocks[u], blocks[w].start);
    hide CfgUpTo;
    UniqueStart(code, table, blocks, blockAtPc, v);
    UniqueStart(code, table, blocks, blockAtPc, w);
  }

  lemma BlockStart(code: seq<byte>, table: CostTable, blocks: seq<GasBlock>, blockAtPc: seq<nat>, v: nat)
    requires BlocksOf(code, table, blocks, blockAtPc) && v < |blocks|
    ensures (blocks[v].start == 0 <==> v == 0) && blocks[v].cost < TWO64 && blocks[v].end > 0
  {
    var e :| e >= |code| && Tiles(code, blocks, e);
    assert DescribesChunk(code, table, blocks[v]);
    if v > 0 {
      StartsIncrease(code, blocks, e, 0, v);
    }
  }

  /** In the split graph only the entry starts at offset 0, and all costs fit 64 bits. */
  lemma SplitStarts(
    code: seq<byte>, table: CostTable, blocks: seq<GasBlock>, blockAtPc: seq<nat>,
    g: seq<GasBlock>, g': seq<GasBlock>, splits: seq<(nat, nat)>)
    requires BlocksOf(code, table, blocks, blockAtPc) && EdgesOver(blocks, g) && SplitOf(g, g', splits)
    ensures OnlyEntryAtStart(g')
    ensures forall v :: 0 <= v < |g'| ==> g'[v].cost < TWO64
  {
    hide BlocksOf, SplitEdges, WellFormed;
    forall v: nat | v < |g'|
      ensures (g'[v].start == 0 <==> v == 0) && g'[v].cost < TWO64
    {
      if v < |g| {
        assert SameBlock(g[v], g'[v]) && SameBlock(blocks[v], g[v]);
        BlockStart(code, table, blocks, blockAtPc, v);
      } else {
        assert EmptyOn(g, g'[v], splits[v - |g|]);
        var u := splits[v - |g|].0;
        assert SameBlock(blocks[u], g[u]);
        BlockStart(code, table, blocks, blockAtPc, u);
      }
    }
  }

  /** 1 marks blocks on the worklist, 2 blocks already ordered. */
  ghost predicate TopoState(g: seq<GasBlock>, visited: seq<nat>, order: seq<nat>, stack: seq<nat>) {
    && |visited| == |g| && (forall v :: 0 <= v < |g| ==> visited[v] <= 2)
    && (forall v: nat :: v in stack <==> v < |g| && visited[v] == 1)
    && (forall v: nat :: v in order <==> v < |g| && visited[v] == 2)
    && Distinct(order) && Distinct(stack)
  }

  lemma TopoPush(g: seq<GasBlock>, visited: seq<nat>, order: seq<nat>, stack: seq<nat>, v: nat)
    requires TopoState(g, visited, order, stack) && v < |g| && visited[v] == 0
    ensures TopoState(g, visited[v := 1], order, stack + [v])
  {
  }

  lemma TopoPop(g: seq<GasBlock>, visited: seq<nat>, order: seq<nat>, stack: seq<nat>, v: nat)
    requires TopoState(g, visited, order, stack + [v])
    ensures v < |g| && visited[v] == 1 && TopoState(g, visited[v := 2], order + [v], stack)
  {
    var all := stack + [v];
    assert v == all[|stack|] && v in all;
    assert forall u :: u in all <==> u in stack || u == v;
    assert forall i :: 0 <= i < |stack| ==> stack[i] == all[i];
  }

  /** The successors of `start` from list position `i` on that a visit orders before it. */
  function Fresh(g: seq<GasBlock>, backEdges: seq<seq<nat>>, order: seq<nat>, start: nat, i: nat): (r: seq<nat>)
    requires start < |g| == |backEdges|
    decreases |g[start].succs| - i
  {
    var succs := g[start].succs;
    if i >= |succs| then []
    else
      var rest := Fresh(g, backEdges, order, start, i + 1);
      if succs[i] < |g| && succs[i] !in backEdges[start] && succs[i] !in order && succs[i] != start then [succs[i]] + rest
      else rest
  }

  /** What a visit of `start` appends to the order. */
  function Visit(g: seq<GasBlock>, backEdges: seq<seq<nat>>, order: seq<nat>, start: nat): (r: seq<nat>)
    requires start < |g| == |backEdges|
  {
    Fresh(g, backEdges, order, start, 0) + [start]
  }

  /** The order after visiting, in turn, the blocks below `n` that are not in it yet. */
  function OrderUpTo(g: seq<GasBlock>, backEdges: seq<seq<nat>>, n: nat): (r: seq<nat>)
    requires n <= |g| == |backEdges|
  {
    if n == 0 then []
    else
      var order := OrderUpTo(g, backEdges, n - 1);
      if n - 1 in order then order else order + Visit(g, backEdges, order, n - 1)
  }

  lemma {:induction false} FreshMembers(
    g: seq<GasBlock>, backEdges: seq<seq<nat>>, order: seq<nat>, start: nat, i: nat, v: nat)
    requires start < |g| == |backEdges| && i <= |g[start].succs|
    ensures v in Fresh(g, backEdges, order, start, i) <==>
            v in g[start].succs[i..] && v < |g| && v !in backEdges[start] && v !in order && v != start
    decreases |g[start].succs| - i
  {
    var succs := g[start].succs;
    if i < |succs| {
      FreshMembers(g, backEdges, order, start, i + 1, v);
      assert succs[i..] == [succs[i]] + succs[i + 1..];
    }
  }

  /** A visited block comes after all its successors but those over back edges. */
  lemma VisitAfterSuccessors(g: seq<GasBlock>, backEdges: seq<seq<nat>>, u: nat, v: nat)
    requires u < |g| == |backEdges| && u !in OrderUpTo(g, backEdges, u)
    requires Edge(g, u, v) && v !in backEdges[u] && v != u
    ensures var order := OrderUpTo(g, backEdges, u + 1);
            |order| > 0 && order[|order| - 1] == u && v in order[..|order| - 1]
  {
    var before := OrderUpTo(g, backEdges, u);
    FreshMembers(g, backEdges, before, u, 0, v);
    var order := OrderUpTo(g, backEdges, u + 1);
    assert order[..|order| - 1] == before + Fresh(g, backEdges, before, u, 0);
  }

  /** A block ordered as a successor need not: in a chain of three, the middle one comes first. */
  lemma ChainNotTopological(g: seq<GasBlock>)
    requires |g| == 3 && g[0].succs == [1] && g[1].succs == [2] && g[2].succs == []
    ensures OrderUpTo(g, [[], [], []], 3) == [1, 0, 2]
  {
    var none: seq<seq<nat>> := [[], [], []];
    assert Fresh(g, none, [], 0, 0) == [1] + Fresh(g, none, [], 0, 1);
    assert OrderUpTo(g, none, 1) == [1, 0];
    assert OrderUpTo(g, none, 2) == [1, 0];
    assert Fresh(g, none, [1, 0], 2, 0) == [];
  }

  function Reversed(s: seq<nat>): (r: seq<nat>)
    ensures |r| == |s|
  {
    if s == [] then [] else Reversed(s[1..]) + [s[0]]
  }

  lemma {:induction false} ReversedEnd(s: seq<nat>, x: nat)
    ensures Reversed(s + [x]) == [x] + Reversed(s)
  {
    if s != [] {
      ReversedEnd(s[1..], x);
      assert (s + [x])[1..] == s[1..] + [x];
    }
  }

  /**
   The processing order of the updates: a permutation of the blocks. The source marks a
   successor visited when it is pushed, so its own successors are not explored from it, and
   the order is in general not topological.
   */
  method ComputeReverseTopo(g: seq<GasBlock>, backEdges: seq<seq<nat>>) returns (order: seq<nat>)
    requires |backEdges| == |g| && WellFormed(g)
    ensures Distinct(order) && forall v: nat :: v in order <==> v < |g|
    ensures order == OrderUpTo(g, backEdges, |g|)
  {
    hide WellFormed, Visit;
    var visited: seq<nat> := seq(|g|, _ => 0);
    order := [];
    var start := 0;
    while start < |g|
      invariant 0 <= start <= |g| && TopoState(g, visited, order, [])
      invariant forall v :: 0 <= v < start ==> visited[v] == 2
      invariant order == OrderUpTo(g, backEdges, start)
    {
      if visited[start] == 0 {
        visited, order := VisitFrom(g, backEdges, visited, order, start);
      } else {
        assert start !in [] && visited[start] != 1;
      }
      start := start + 1;
    }
  }

  method VisitFrom(g: seq<GasBlock>, backEdges: seq<seq<nat>>, visited: seq<nat>, order: seq<nat>, start: nat)
    returns (visited': seq<nat>, order': seq<nat>)
    requires |backEdges| == |g| && WellFormed(g)
    requires TopoState(g, visited, order, []) && start < |g| && visited[start] == 0
    ensures TopoState(g, visited', order', []) && visited'[start] == 2
    ensures forall v :: 0 <= v < |g| && visited[v] == 2 ==> visited'[v] == 2
    ensures order' == order + Visit(g, backEdges, order, start)
  {
    hide *;
    TopoSizes(g, visited, order, start);
    visited', order' := visited, order;
    var stack: seq<nat> := [start];
    ghost var fresh', all, k := true, Visit(g, backEdges, order, start), 0;
    assert start in all by { VisitHasStart(g, backEdges, order, start); }
    while |stack| > 0
      invariant |visited'| == |g| && k <= |all|
      invariant fresh' ==> stack == [start] && visited' == visited && order' == order && k == 0
      invariant !fresh' ==> Visiting(g, visited', order', stack, order, all, k)
      decreases fresh', |stack|
    {
      var current := stack[|stack| - 1];
      if !fresh' {
        VisitingPop(g, visited', order', stack, order, all, k);
      }
      stack := stack[..|stack| - 1];
      if visited'[current] == 2 {
        continue;
      }
      if visited'[current] == 1 {
        visited' := visited'[current := 2];
        order' := order' + [current];
        k := k + 1;
        continue;
      }
      visited', stack := PushFresh(g, backEdges, visited', order, start);
      VisitingStarts(g, visited', stack, order, all);
      fresh' := false;
    }
    VisitingEnds(g, visited, visited', order', order, all, k, start);
  }

  /** During a visit: `k` of the blocks it orders are ordered, the others are on the stack. */
  ghost predicate Visiting(
    g: seq<GasBlock>, visited: seq<nat>, order': seq<nat>, stack: seq<nat>, order: seq<nat>, all: seq<nat>, k: nat)
  {
    && k <= |all| && order' == order + all[..k] && stack == Reversed(all[k..])
    && TopoState(g, visited, order', stack)
  }

  lemma VisitingStarts(g: seq<GasBlock>, visited: seq<nat>, stack: seq<nat>, order: seq<nat>, all: seq<nat>)
    requires TopoState(g, visited, order, stack) && stack == Reversed(all)
    ensures Visiting(g, visited, order, stack, order, all, 0) && |visited| == |g|
  {
    assert all[0..] == all && order + all[..0] == order;
  }

  lemma VisitingPop(
    g: seq<GasBlock>, visited: seq<nat>, order': seq<nat>, stack: seq<nat>, order: seq<nat>, all: seq<nat>, k: nat)
    requires Visiting(g, visited, order', stack, order, all, k) && |stack| > 0
    ensures var v, rest := stack[|stack| - 1], stack[..|stack| - 1];
            && v < |g| == |visited| && visited[v] == 1 && k < |all|
            && Visiting(g, visited[v := 2], order' + [v], rest, order, all, k + 1)
  {
    var v, rest := stack[|stack| - 1], stack[..|stack| - 1];
    assert stack == rest + [v];
    TopoPop(g, visited, order', rest, v);
    hide TopoState;
    assert all[k..][1..] == all[k + 1..];
    assert v == all[k] && all[..k + 1] == all[..k] + [v];
  }

  lemma VisitingEnds(
    g: seq<GasBlock>, visited: seq<nat>, visited': seq<nat>, order': seq<nat>, order: seq<nat>, all: seq<nat>,
    k: nat, start: nat)
    requires TopoState(g, visited, order, []) && Visiting(g, visited', order', [], order, all, k)
    requires start < |g| && start in all
    ensures order' == order + all && TopoState(g, visited', order', [])
    ensures |visited'| == |visited| == |g| && visited'[start] == 2
    ensures forall v :: 0 <= v < |g| && visited[v] == 2 ==> visited'[v] == 2
  {
    assert k == |all| && all[..k] == all;
  }

  lemma VisitHasStart(g: seq<GasBlock>, backEdges: seq<seq<nat>>, order: seq<nat>, start: nat)
    requires start < |g| == |backEdges|
    ensures start in Visit(g, backEdges, order, start)
  {
  }

  lemma TopoSizes(g: seq<GasBlock>, visited: seq<nat>, order: seq<nat>, start: nat)
    requires TopoState(g, visited, order, []) && start < |g| && WellFormed(g)
    ensures |visited| == |g| && Distinct(g[start].succs)
  {
  }

  /** Mark `start` and its fresh successors, and push them so that `start` comes off last. */
  method PushFresh(g: seq<GasBlock>, backEdges: seq<seq<nat>>, visited: seq<nat>, ghost order: seq<nat>, start: nat)
    returns (visited': seq<nat>, stack: seq<nat>)
    requires |backEdges| == |g| && TopoState(g, visited, order, []) && start < |g| && visited[start] == 0
    requires Distinct(g[start].succs)
    ensures TopoState(g, visited', order, stack) && stack == Reversed(Visit(g, backEdges, order, start))
  {
    hide TopoState, Fresh, Reversed, Distinct;
    VisitedSize(g, visited, order);
    var succs := g[start].succs;
    TopoPush(g, visited, order, [], start);
    assert [] + [start] == [start];
    FreshNone(g, backEdges, order, start);
    visited', stack := visited[start := 1], [start];
    var i := |succs|;
    while i > 0
      invariant 0 <= i <= |succs| && |visited'| == |g| && TopoState(g, visited', order, stack)
      invariant stack == [start] + Reversed(Fresh(g, backEdges, order, start, i))
    {
      i := i - 1;
      var succ := succs[i];
      ghost var rest := Fresh(g, backEdges, order, start, i + 1);
      FreshStep(g, backEdges, order, start, i);
      Unvisited(g, visited', order, stack, start, rest, succ);
      if succ < |g| && succ !in backEdges[start] && visited'[succ] == 0 {
        TopoPush(g, visited', order, stack, succ);
        visited' := visited'[succ := 1];
        stack := stack + [succ];
      }
    }
    ReversedEnd(Fresh(g, backEdges, order, start, 0), start);
  }

  lemma VisitedSize(g: seq<GasBlock>, visited: seq<nat>, order: seq<nat>)
    requires TopoState(g, visited, order, [])
    ensures |visited| == |g|
  {
  }

  lemma FreshNone(g: seq<GasBlock>, backEdges: seq<seq<nat>>, order: seq<nat>, start: nat)
    requires start < |g| == |backEdges|
    ensures Reversed(Fresh(g, backEdges, order, start, |g[start].succs|)) == []
  {
  }

  lemma FreshStep(g: seq<GasBlock>, backEdges: seq<seq<nat>>, order: seq<nat>, start: nat, i: nat)
    requires start < |g| == |backEdges| && i < |g[start].succs| && Distinct(g[start].succs)
    ensures var succ, rest := g[start].succs[i], Fresh(g, backEdges, order, start, i + 1);
            && succ !in rest
            && var all := Fresh(g, backEdges, order, start, i);
               if succ < |g| && succ !in backEdges[start] && succ !in order && succ != start then
                 Reversed(all) == Reversed(rest) + [succ]
               else all == rest
  {
    var succ, rest := g[start].succs[i], Fresh(g, backEdges, order, start, i + 1);
    FreshMembers(g, backEdges, order, start, i + 1, succ);
    assert ([succ] + rest)[1..] == rest;
  }

  lemma {:induction false} ReversedMembers(s: seq<nat>, x: nat)
    ensures x in Reversed(s) <==> x in s
  {
    if s != [] {
      ReversedMembers(s[1..], x);
      assert s == [s[0]] + s[1..];
    }
  }

  /** During a visit the unvisited blocks are those neither ordered nor on the stack. */
  lemma Unvisited(
    g: seq<GasBlock>, visited: seq<nat>, order: seq<nat>, stack: seq<nat>, start: nat, rest: seq<nat>, v: nat)
    requires TopoState(g, visited, order, stack) && stack == [start] + Reversed(rest)
    ensures v < |g| == |visited| ==> (visited[v] == 0 <==> v !in order && v != start && v !in rest)
  {
    ReversedMembers(rest, v);
  }

  lemma CfgIsEdgesOver(
    code: seq<byte>, jumpDest: seq<bool>, pushValue: seq<word>, blocks: seq<GasBlock>, g: seq<GasBlock>)
    requires |jumpDest| == |pushValue| && CfgUpTo(code, jumpDest, pushValue, blocks, g, |blocks|)
    ensures EdgesOver(blocks, g)
  {
  }

  /** No instruction of the code has a negative table entry; defined opcodes have none. */
  ghost predicate CostsDefined(code: seq<byte>, table: CostTable) {
    forall p: nat :: p < |code| && Follows(code, 0, p) ==> table[code[p]] >= 0
  }

  lemma {:induction false} ChunkSumWithin(code: seq<byte>, table: CostTable, p: nat)
    requires CostsDefined(code, table) && p < |code| && Follows(code, 0, p)
    ensures 0 <= ChunkSum(code, table, p) <= 0x8000 * (ChunkEnd(code, p) - p) && ChunkEnd(code, p) <= |code| + 32
    decreases |code| - p
  {
    if !ChunkStopsAfter(code, p) {
      FollowsNext(code, 0, p);
      ChunkSumWithin(code, table, Next(code, p));
    }
  }

  lemma {:induction false} SumAllAppend(w: seq<nat>, x: nat)
    ensures SumAll(w + [x]) == SumAll(w) + x
  {
    if w == [] {
      assert [x][1..] == [] && w + [x] == [x];
    } else {
      assert (w + [x])[1..] == w[1..] + [x];
      SumAllAppend(w[1..], x);
    }
  }

  /** Where the first `n` blocks of a tiling end, the empty blocks behind them adding nothing. */
  function EndOf(blocks: seq<GasBlock>, n: nat): (e: nat) {
    if n == 0 || blocks == [] then 0 else blocks[if n <= |blocks| then n - 1 else |blocks| - 1].end
  }

  lemma {:induction false} CostsWithin(
    code: seq<byte>, table: CostTable, blocks: seq<GasBlock>, blockAtPc: seq<nat>, g': seq<GasBlock>, n: nat)
    requires BlocksOf(code, table, blocks, blockAtPc) && CostsDefined(code, table) && n <= |g'| && |blocks| <= |g'|
    requires forall i :: 0 <= i < |blocks| ==> g'[i].cost == blocks[i].cost
    requires forall i :: |blocks| <= i < |g'| ==> g'[i].cost == 0
    ensures SumAll(Costs(g')[..n]) <= 0x8000 * EndOf(blocks, n)
  {
    hide CostsDefined, BlocksOf, EndOf;
    if n == 0 {
      assert Costs(g')[..0] == [];
    } else {
      var costs, i := Costs(g'), n - 1;
      CostsWithin(code, table, blocks, blockAtPc, g', i);
      assert costs[..n] == costs[..i] + [costs[i]];
      SumAllAppend(costs[..i], costs[i]);
      BlockWithin(code, table, blocks, blockAtPc, i);
    }
  }

  lemma BlockWithin(code: seq<byte>, table: CostTable, blocks: seq<GasBlock>, blockAtPc: seq<nat>, i: nat)
    requires BlocksOf(code, table, blocks, blockAtPc) && CostsDefined(code, table)
    ensures if i < |blocks| then blocks[i].cost <= 0x8000 * (EndOf(blocks, i + 1) - EndOf(blocks, i))
            else EndOf(blocks, i + 1) == EndOf(blocks, i)
  {
    hide CostsDefined, MapsPc;
    if i < |blocks| {
      BlockCostWithin(code, table, blocks[i]);
    }
  }

  lemma BlockCostWithin(code: seq<byte>, table: CostTable, b: GasBlock)
    requires CostsDefined(code, table) && DescribesChunk(code, table, b)
    ensures b.cost <= 0x8000 * (b.end - b.start) && b.end <= |code| + 32
  {
    ChunkSumWithin(code, table, b.start);
    hide ChunkSum, ChunkEnd, CostsDefined;
    ModAtMost(ChunkSum(code, table, b.start));
  }

  lemma ModAtMost(x: nat)
    ensures x % TWO64 <= x
  {
  }

  /** Code whose opcodes are all defined never brings the 64-bit metering to wrap. */
  lemma DefinedCostsFit(
    code: seq<byte>, table: CostTable, blocks: seq<GasBlock>, blockAtPc: seq<nat>,
    g: seq<GasBlock>, g': seq<GasBlock>, splits: seq<(nat, nat)>)
    requires BlocksOf(code, table, blocks, blockAtPc) && EdgesOver(blocks, g) && SplitOf(g, g', splits)
    requires CostsDefined(code, table) && |code| <= MAX_CODE_SIZE
    ensures SumAll(Costs(g')) < TWO64
  {
    hide SumAll, BlocksOf, CostsDefined, SplitEdges;
    forall i | 0 <= i < |blocks|
      ensures g'[i].cost == blocks[i].cost
    {
      assert SameBlock(blocks[i], g[i]) && SameBlock(g[i], g'[i]);
    }
    forall i | |blocks| <= i < |g'|
      ensures g'[i].cost == 0
    {
      assert EmptyOn(g, g'[i], splits[i - |g|]);
    }
    CostsWithin(code, table, blocks, blockAtPc, g', |g'|);
    assert Costs(g')[..|g'|] == Costs(g');
    LastEnd(code, table, blocks, blockAtPc, |g'|);
  }

  lemma LastEnd(code: seq<byte>, table: CostTable, blocks: seq<GasBlock>, blockAtPc: seq<nat>, n: nat)
    requires BlocksOf(code, table, blocks, blockAtPc) && CostsDefined(code, table)
    ensures EndOf(blocks, n) <= |code| + 32
  {
    hide CostsDefined;
    if n > 0 && blocks != [] {
      BlockCostWithin(code, table, blocks[if n <= |blocks| then n - 1 else |blocks| - 1]);
    }
  }

  /**
   `m` results from one update of every block off the cycles, in the order given. Successors
   that dominate a block, in the sense of the computed sets, take no part in its update.
   */
  ghost predicate MeteredBy(
    g: seq<GasBlock>, m: seq<nat>, order: seq<nat>, dom: seq<set<nat>>, backEdges: seq<seq<nat>>, inCycle: seq<bool>,
    mask: set<nat>, states: seq<seq<nat>>)
  {
    && DominatorSets(g, dom) && BackEdgesOf(g, dom, backEdges)
    && |inCycle| == |g| == |backEdges| && (forall v :: 0 <= v < |g| ==> (inCycle[v] <==> OnCycle(g, v)))
    && Distinct(order) && (forall v: nat :: v in order <==> v < |g|) && order == OrderUpTo(g, backEdges, |g|)
    && Updates(g, backEdges, inCycle, mask, order, states) && |states| == |order| + 1 && states[|order|] == m
    && (forall v: nat :: v in mask <==> v < |g| && !inCycle[v])
  }

  /** Some choice of order, dominators and masks explains the metering, and says whether gas is conserved. */
  ghost predicate Metered(g: seq<GasBlock>, m: seq<nat>) {
    exists order, dom, backEdges, inCycle, mask, states ::
      && MeteredBy(g, m, order, dom, backEdges, inCycle, mask, states)
      && (Conserves(g, m) <==> NeverWraps(g, backEdges, inCycle, mask, order, states))
  }

  /** The metering of a graph without critical edges: dominators, back edges, order, cycles, updates. */
  method MeterGraph(g: seq<GasBlock>) returns (m: seq<nat>)
    requires WellFormed(g) && |g| > 0 && NoCriticalEdges(g) && OnlyEntryAtStart(g)
    requires forall v :: 0 <= v < |g| ==> g[v].cost < TWO64
    ensures |m| == |g| && Metered(g, m) && ConservesMod(g, m)
    ensures SumAll(Costs(g)) < TWO64 ==> Conserves(g, m)
  {
    hide WellFormed, Edge, Reaches, OnCycle, Exact, EntryUnreached, OnlyEntryAtStart, Conserves, ConservesMod, SumAll;
    hide Distinct, Updates, OrderUpTo, NeverWraps, BackEdgesOf, NoCriticalEdges;
    var reachable := ComputeReachable(g, 0);
    var dom := ComputeDominators(g, 0, reachable);
    assert DominatorSets(g, dom);
    hide DominatorSets;
    var backEdges := FindBackEdgesUsingDominators(g, dom);
    BackEdgesSize(g, dom, backEdges);
    var order := ComputeReverseTopo(g, backEdges);
    forall i | 0 <= i < |order|
      ensures order[i] < |g|
    {
      assert order[i] in order;
    }
    var inCycle := ComputeInCycle(g);
    ghost var mask, states;
    m, mask, states := ShiftMetering(g, dom, backEdges, inCycle, order);
    assert MeteredBy(g, m, order, dom, backEdges, inCycle, mask, states);
  }

  /**
   The analysis of a program whose jumps are all resolved: graph, critical-edge splitting,
   and metering of the result. The metering conserves gas along every path of the split
   graph when no addition at a reachable block wraps, as is the case when every opcode is
   defined.
   */
  method ComputeMetering(
    code: seq<byte>, ghost table: CostTable, blocks: seq<GasBlock>, blockAtPc: seq<nat>,
    jumpDest: seq<bool>, pushValue: seq<word>)
    returns (ghost g: seq<GasBlock>, g': seq<GasBlock>, m: seq<nat>, ghost splits: seq<(nat, nat)>)
    requires BlocksOf(code, table, blocks, blockAtPc) && MapsOf(code, jumpDest, pushValue)
    requires |code| <= MAX_CODE_SIZE && |blocks| > 0
    ensures CfgUpTo(code, jumpDest, pushValue, blocks, g, |blocks|) && EdgesOver(blocks, g)
    ensures SplitOf(g, g', splits) && (forall e :: e in splits <==> Critical(g, e.0, e.1)) && NoCriticalEdges(g')
    ensures |m| == |g'| && Metered(g', m) && ConservesMod(g', m)
    ensures SumAll(Costs(g')) < TWO64 || CostsDefined(code, table) ==> Conserves(g', m)
  {
    assert |jumpDest| == |pushValue|;
    hide BlocksOf, MapsOf, LeadsTo, WellFormed, SplitOf, Edge, OnlyEntryAtStart, Conserves, ConservesMod, Critical;
    hide SameBlock, SumAll, CostsDefined, Metered;
    var cfg := BuildCfg(code, table, blocks, blockAtPc, jumpDest, pushValue);
    g := cfg;
    CfgIsEdgesOver(code, jumpDest, pushValue, blocks, g);
    var changed: bool;
    g', changed, splits := SplitCriticalEdges(cfg, |code|);
    forall u: nat | u < |g| && |g[u].succs| > 1
      ensures g[u].end < |code|
    {
      BranchEndsInside(code, table, blocks, blockAtPc, jumpDest, pushValue, g, u);
    }
    CriticalSplits(g, |code|);
    NoCriticalEdgeLeft(g, g', splits, |code|);
    SplitStarts(code, table, blocks, blockAtPc, g, g', splits);
    SplitGrows(g, g', splits);
    hide CfgUpTo, EdgesOver;
    m := MeterGraph(g');
    if CostsDefined(code, table) {
      DefinedCostsFit(code, table, blocks, blockAtPc, g, g', splits);
    }
  }

  lemma CriticalSplits(g: seq<GasBlock>, codeSize: nat)
    requires forall u: nat :: u < |g| && |g[u].succs| > 1 ==> g[u].end < codeSize
    ensures forall e: (nat, nat) :: Splittable(g, codeSize, e) <==> Critical(g, e.0, e.1)
  {
  }

  lemma SplitGrows(g: seq<GasBlock>, g': seq<GasBlock>, splits: seq<(nat, nat)>)
    requires SplitOf(g, g', splits)
    ensures |g'| >= |g|
  {
  }

  /** The blocks, possibly with empty ones appended. */
  ghost predicate WithEmpties(blocks: seq<GasBlock>, g': seq<GasBlock>) {
    && |blocks| <= |g'|
    && (forall i :: 0 <= i < |blocks| ==> SameBlock(blocks[i], g'[i]))
    && (forall i :: |blocks| <= i < |g'| ==> g'[i].start == g'[i].end)
  }

  lemma SplitHasEmpties(blocks: seq<GasBlock>, g: seq<GasBlock>, g': seq<GasBlock>, splits: seq<(nat, nat)>)
    requires EdgesOver(blocks, g) && SplitOf(g, g', splits)
    ensures WithEmpties(blocks, g')
  {
    forall i | 0 <= i < |blocks|
      ensures SameBlock(blocks[i], g'[i])
    {
      assert SameBlock(blocks[i], g[i]) && SameBlock(g[i], g'[i]);
    }
    forall i | |blocks| <= i < |g'|
      ensures g'[i].start == g'[i].end
    {
      assert EmptyOn(g, g'[i], splits[i - |g|]);
    }
  }

  /** Write every non-empty block's end and cost at its start; zero everywhere else. */
  method WriteChunks(
    code: seq<byte>, ghost table: CostTable, ghost blocks: seq<GasBlock>, ghost blockAtPc: seq<nat>, g': seq<GasBlock>)
    returns (chunkEnd: seq<nat>, chunkCost: seq<nat>)
    requires BlocksOf(code, table, blocks, blockAtPc) && WithEmpties(blocks, g')
    ensures |chunkEnd| == |chunkCost| == |code|
    ensures forall p :: 0 <= p < |code| ==> ChunkEntry(code, table, p, chunkEnd[p], chunkCost[p])
  {
    hide Tiles;
    chunkEnd, chunkCost := seq(|code|, _ => 0), seq(|code|, _ => 0);
    var id := 0;
    while id < |g'|
      invariant 0 <= id <= |g'| && |chunkEnd| == |chunkCost| == |code|
      invariant forall p :: 0 <= p < |code| ==>
                  if IsChunkStart(code, p) && blockAtPc[p] < id then ChunkEntry(code, table, p, chunkEnd[p], chunkCost[p])
                  else chunkEnd[p] == 0 && chunkCost[p] == 0
    {
      var b := g'[id];
      if id < |blocks| {
        assert SameBlock(blocks[id], b) && DescribesChunk(code, table, blocks[id]);
        UniqueStart(code, table, blocks, blockAtPc, id);
      }
      if b.start != b.end {
        chunkEnd := chunkEnd[b.start := b.end];
        chunkCost := chunkCost[b.start := b.cost];
      }
      forall p: nat | p < |code| && IsChunkStart(code, p) && blockAtPc[p] == id
        ensures id < |blocks| && p == b.start
      {
        assert MapsPc(code, blocks, blockAtPc, p);
      }
      id := id + 1;
    }
    forall p | 0 <= p < |code|
      ensures ChunkEntry(code, table, p, chunkEnd[p], chunkCost[p])
    {
      assert MapsPc(code, blocks, blockAtPc, p);
    }
  }

  /**
   The chunk arrays. With an unresolved jump the blocks are written as they are; otherwise
   the graph is analysed first. Either way the arrays hold each chunk's own end and cost:
   the metering is not what is written.
   */
  method BuildGasChunksSPP(code: seq<byte>, table: CostTable, jumpDest: seq<bool>, pushValue: seq<word>)
    returns (chunkEnd: seq<nat>, chunkCost: seq<nat>)
    requires |code| <= MAX_CODE_SIZE && MapsOf(code, jumpDest, pushValue)
    ensures |chunkEnd| == |chunkCost| == |code|
    ensures forall p :: 0 <= p < |code| ==> ChunkEntry(code, table, p, chunkEnd[p], chunkCost[p])
  {
    var blocks, blockAtPc := BuildGasBlocks(code, table);
    hide ChunkEntry, DescribesChunk, Tiles, MapsPc, Conserves, ConservesMod, CfgUpTo, SplitOf, NoCriticalEdges;
    if |blocks| == 0 {
      chunkEnd, chunkCost := WriteChunks(code, table, blocks, blockAtPc, blocks);
      return;
    }
    var dynamic := HasDynamicJump(code, table, jumpDest, pushValue, blocks, blockAtPc);
    if dynamic {
      chunkEnd, chunkCost := WriteChunks(code, table, blocks, blockAtPc, blocks);
      return;
    }
    ghost var g, splits;
    var g', m;
    g, g', m, splits := ComputeMetering(code, table, blocks, blockAtPc, jumpDest, pushValue);
    SplitHasEmpties(blocks, g, g', splits);
    chunkEnd, chunkCost := WriteChunks(code, table, blocks, blockAtPc, g');
  }

  /** The whole cache describes its code. */
  method BuildBytecodeCache(code: seq<byte>, table: CostTable) returns (cache: Cache)
    requires |code| <= MAX_CODE_SIZE
    ensures CacheFor(code, table, cache)
  {
    var jumpDest, pushValue := BuildJumpDestMapAndPushCache(code);
    var chunkEnd, chunkCost := BuildGasChunksSPP(code, table, jumpDest, pushValue);
    cache := Cache(jumpDest, pushValue, chunkEnd, chunkCost);
  }

  /**
   Load and run a program: building the cache and interpreting with prepaid chunks gives
   the outcome of charging every opcode, for every program, environment and gas limit.
   */
  method Execute<W(!new)>(env: Env<W>, code: seq<byte>, gas: nat, world: W) returns (outcome: Outcome<W>)
    requires ValidEnv(env) && |code| <= MAX_CODE_SIZE
    ensures Corresponds(outcome, PerOpcodeRun(env, code, Frame(0, [], [], gas, world)))
  {
    var cache := BuildBytecodeCache(code, env.table);
    var frame := new EVMFrame(gas, world);
    outcome := frame.Interpret(env, code, cache);
  }

  /** A chunk left by a jump with a resolved target goes to that target. */
  lemma {:induction false} ChunkJumpsToTarget<W(!new)>(
    env: Env<W>, code: seq<byte>, cache: Cache, b: GasBlock, target: nat, f: Frame<W>)
    requires ValidEnv(env) && CacheFor(code, env.table, cache) && DescribesChunk(code, env.table, b)
    requires Resolve(cache.jumpDest, cache.pushValue, b) == Some(target)
    requires ValidFrame(f) && f.pc < |code| && Follows(code, 0, f.pc) && Follows(code, f.pc, b.prevPc)
    requires ChunkEnd(code, f.pc) == b.end
    ensures RunChunk(env, code, f).Jumped? ==> RunChunk(env, code, f).frame.pc == target
    decreases |code| - f.pc
  {
    hide Handle, CacheFor;
    HandleKeepsFrame(env, code, f);
    ChunkEndAfter(code, f.pc);
    FollowsNext(code, 0, f.pc);
    FollowsOrdered(code, f.pc, b.prevPc);
    if f.pc == b.prevPc {
      ResolvedJumpIsTaken(env, code, cache, b, f);
      var r := Handle(env, code, f);
      if r.Continue? {
        HandleKeepsFrame(env, code, r.frame);
      }
    } else {
      FollowsOrdered(code, Next(code, f.pc), b.prevPc);
      var r := Handle(env, code, f);
      if r.Continue? {
        ChunkJumpsToTarget(env, code, cache, b, target, r.frame);
      }
    }
  }

  /** Running one whole block from `f`, prepaid. */
  ghost function AfterBlock<W(!new)>(env: Env<W>, code: seq<byte>, f: Frame<W>): (r: Step<W>)
    requires ValidEnv(env) && ValidFrame(f) && f.pc < |code| && f.gas >= ChunkCost(code, env.table, f.pc)
  {
    RunChunk(env, code, f.(gas := f.gas - ChunkCost(code, env.table, f.pc)))
  }

  lemma ContinuesUnlessTerminator<W(!new)>(env: Env<W>, code: seq<byte>, f: Frame<W>)
    requires ValidEnv(env) && f.pc < |code| && ValidFrame(f) && Handle(env, code, f).Continue?
    ensures !IsControlFlowTerminator(code[f.pc])
  {
    hide MLoad, MStore, RunPlain;
  }

  /** How a chunk is left is decided by its last opcode. */
  lemma {:induction false} LastOpcodeDecides<W(!new)>(env: Env<W>, code: seq<byte>, lastPc: nat, f: Frame<W>)
    requires ValidEnv(env) && ValidFrame(f) && f.pc < |code| && lastPc < |code|
    requires Follows(code, f.pc, lastPc) && Next(code, lastPc) == ChunkEnd(code, f.pc)
    ensures RunChunk(env, code, f).Continue? ==> !IsControlFlowTerminator(code[lastPc])
    ensures RunChunk(env, code, f).Jumped? ==> IsJump(code[lastPc])
    decreases |code| - f.pc
  {
    hide Handle;
    HandleKeepsFrame(env, code, f);
    FollowsOrdered(code, f.pc, lastPc);
    ChunkEndAfter(code, f.pc);
    var r := Handle(env, code, f);
    if f.pc == lastPc {
      if r.Continue? {
        ContinuesUnlessTerminator(env, code, f);
      }
    } else {
      FollowsOrdered(code, Next(code, f.pc), lastPc);
      if r.Continue? {
        LastOpcodeDecides(env, code, lastPc, r.frame);
      }
    }
  }

  lemma FollowsFromStart(code: seq<byte>, table: CostTable, b: GasBlock)
    requires DescribesChunk(code, table, b)
    ensures Follows(code, 0, b.start) && b.end == ChunkEnd(code, b.start) && b.lastOpcode == code[b.lastPc]
    ensures IsPush(b.prevOpcode) ==> Follows(code, b.start, b.prevPc)
  {
  }

  lemma CacheSizes(code: seq<byte>, table: CostTable, cache: Cache)
    requires CacheFor(code, table, cache)
    ensures |code| <= MAX_CODE_SIZE && |cache.jumpDest| == |cache.pushValue| == |code|
  {
  }

  /** A block whose jump, if it ends in one, is resolved goes where the graph says. */
  lemma BlockLeadsOn<W(!new)>(env: Env<W>, code: seq<byte>, cache: Cache, b: GasBlock, f: Frame<W>)
    requires ValidEnv(env) && CacheFor(code, env.table, cache) && DescribesChunk(code, env.table, b)
    requires IsJump(b.lastOpcode) ==> Resolve(cache.jumpDest, cache.pushValue, b).Some?
    requires ValidFrame(f) && f.pc == b.start && f.gas >= ChunkCost(code, env.table, f.pc)
    ensures var r := AfterBlock(env, code, f);
            (r.Continue? || r.Jumped?) && r.frame.pc < |code| ==>
              LeadsTo(code, cache.jumpDest, cache.pushValue, b, r.frame.pc)
  {
    hide RunChunk, CacheFor, Follows, ValidEnv, ChunkCost, ChunkEnd, Agrees, PerOpcodeRun;
    CacheSizes(code, env.table, cache);
    var r := AfterBlock(env, code, f);
    var paid := f.(gas := f.gas - ChunkCost(code, env.table, f.pc));
    FollowsFromStart(code, env.table, b);
    ChunkEntryAgrees(env, code, f);
    LastOpcodeDecides(env, code, b.lastPc, paid);
    if r.Jumped? {
      ChunkJumpsToTarget(env, code, cache, b, Resolve(cache.jumpDest, cache.pushValue, b).value, paid);
    }
  }

  /** A block of a program whose jumps are all resolved leaves only along an edge of its graph. */
  lemma BlockStepFollowsEdge<W(!new)>(
    env: Env<W>, code: seq<byte>, cache: Cache, blocks: seq<GasBlock>, blockAtPc: seq<nat>, g: seq<GasBlock>,
    i: nat, f: Frame<W>)
    requires ValidEnv(env) && CacheFor(code, env.table, cache) && BlocksOf(code, env.table, blocks, blockAtPc)
    requires AllJumpsResolved(cache.jumpDest, cache.pushValue, blocks)
    requires CfgUpTo(code, cache.jumpDest, cache.pushValue, blocks, g, |blocks|)
    requires i < |blocks| && ValidFrame(f) && f.pc == blocks[i].start && f.pc < |code|
    requires f.gas >= ChunkCost(code, env.table, f.pc)
    ensures var r := AfterBlock(env, code, f);
            (r.Continue? || r.Jumped?) && r.frame.pc < |code| ==>
              Edge(g, i, blockAtPc[r.frame.pc]) && blocks[blockAtPc[r.frame.pc]].start == r.frame.pc
  {
    var b, r := blocks[i], AfterBlock(env, code, f);
    assert DescribesChunk(code, env.table, b) && |g| == |blocks| && |blockAtPc| == |code|;
    assert MapsOf(code, cache.jumpDest, cache.pushValue);
    hide AfterBlock, CacheFor, BlocksOf, MapsOf, ValidEnv, ChunkCost, Resolve, DescribesChunk, WellFormed;
    BlockLeadsOn(env, code, cache, b, f);
    if (r.Continue? || r.Jumped?) && r.frame.pc < |code| {
      TargetIsBlock(code, env.table, blocks, blockAtPc, cache.jumpDest, cache.pushValue, i, r.frame.pc);
    }
  }

  /** Frames at the starts of consecutively executed blocks. */
  ghost predicate BlockTrace<W(!new)>(env: Env<W>, code: seq<byte>, fs: seq<Frame<W>>)
    requires ValidEnv(env)
  {
    && |fs| >= 1 && fs[0].pc == 0
    && (forall k :: 0 <= k < |fs| ==> ValidFrame(fs[k]) && fs[k].pc < |code|)
    && (forall k :: 0 <= k < |fs| - 1 ==> BlockStep(env, code, fs[k], fs[k + 1]))
  }

  ghost predicate BlockStep<W(!new)>(env: Env<W>, code: seq<byte>, f: Frame<W>, f': Frame<W>)
    requires ValidEnv(env) && ValidFrame(f) && f.pc < |code|
  {
    && f.gas >= ChunkCost(code, env.table, f.pc)
    && (AfterBlock(env, code, f) == Continue(f') || AfterBlock(env, code, f) == Jumped(f'))
  }

  ghost function BlockIds<W>(blockAtPc: seq<nat>, fs: seq<Frame<W>>): (p: seq<nat>)
    requires forall k :: 0 <= k < |fs| ==> fs[k].pc < |blockAtPc|
    ensures |p| == |fs| && forall k :: 0 <= k < |fs| ==> p[k] == blockAtPc[fs[k].pc]
  {
    seq(|fs|, k requires 0 <= k < |fs| => blockAtPc[fs[k].pc])
  }

  /** `p` is a path from the entry through the blocks at which the frames stand. */
  ghost predicate Walks<W>(g: seq<GasBlock>, blocks: seq<GasBlock>, p: seq<nat>, fs: seq<Frame<W>>) {
    && |p| == |fs| >= 1 && |g| == |blocks| && PathFromTo(g, p, 0, p[|p| - 1])
    && forall k :: 0 <= k < |p| ==> p[k] < |g| && blocks[p[k]].start == fs[k].pc
  }

  lemma WalkStarts<W>(
    code: seq<byte>, table: CostTable, blocks: seq<GasBlock>, blockAtPc: seq<nat>, g: seq<GasBlock>, f: Frame<W>)
    requires BlocksOf(code, table, blocks, blockAtPc) && |g| == |blocks| && f.pc == 0 && 0 < |code|
    ensures Walks(g, blocks, [blockAtPc[0]], [f])
  {
    assert IsChunkStart(code, 0) && MapsPc(code, blocks, blockAtPc, 0);
    BlockStart(code, table, blocks, blockAtPc, blockAtPc[0]);
  }

  lemma ExtendWalk<W>(
    g: seq<GasBlock>, blocks: seq<GasBlock>, blockAtPc: seq<nat>, fs: seq<Frame<W>>, n: nat)
    requires |fs| == n + 1 && n >= 1 && forall k :: 0 <= k < |fs| ==> fs[k].pc < |blockAtPc|
    requires Walks(g, blocks, BlockIds(blockAtPc, fs[..n]), fs[..n])
    requires Edge(g, blockAtPc[fs[n - 1].pc], blockAtPc[fs[n].pc]) && blocks[blockAtPc[fs[n].pc]].start == fs[n].pc
    ensures Walks(g, blocks, BlockIds(blockAtPc, fs), fs)
  {
    var p, q := BlockIds(blockAtPc, fs), BlockIds(blockAtPc, fs[..n]);
    ExtendPath(g, q, p[n]);
    assert p == q + [p[n]];
  }

  lemma TracePrefix<W(!new)>(env: Env<W>, code: seq<byte>, fs: seq<Frame<W>>, n: nat)
    requires ValidEnv(env) && BlockTrace(env, code, fs) && |fs| == n + 1 && n >= 1
    ensures BlockTrace(env, code, fs[..n]) && BlockStep(env, code, fs[n - 1], fs[n])
  {
    hide BlockStep, ValidEnv;
    assert BlockStep(env, code, fs[n - 1], fs[n - 1 + 1]);
    forall k | 0 <= k < n - 1
      ensures BlockStep(env, code, fs[..n][k], fs[..n][k + 1])
    {
      assert BlockStep(env, code, fs[k], fs[k + 1]);
    }
  }

  lemma GraphSizes(
    code: seq<byte>, table: CostTable, cache: Cache, blocks: seq<GasBlock>, blockAtPc: seq<nat>, g: seq<GasBlock>)
    requires CacheFor(code, table, cache) && BlocksOf(code, table, blocks, blockAtPc)
    requires |cache.jumpDest| == |cache.pushValue| && CfgUpTo(code, cache.jumpDest, cache.pushValue, blocks, g, |blocks|)
    ensures |blockAtPc| == |code| && |g| == |blocks|
  {
  }

  /**
   Every execution walks the graph: the blocks an execution runs through form a path of the
   control-flow graph from its entry.
   */
  lemma {:induction false} RunsFollowCfg<W(!new)>(
    env: Env<W>, code: seq<byte>, cache: Cache, blocks: seq<GasBlock>, blockAtPc: seq<nat>, g: seq<GasBlock>,
    fs: seq<Frame<W>>)
    requires ValidEnv(env) && CacheFor(code, env.table, cache) && BlocksOf(code, env.table, blocks, blockAtPc)
    requires AllJumpsResolved(cache.jumpDest, cache.pushValue, blocks)
    requires CfgUpTo(code, cache.jumpDest, cache.pushValue, blocks, g, |blocks|)
    requires BlockTrace(env, code, fs)
    ensures Walks(g, blocks, BlockIds(blockAtPc, fs), fs)
    decreases |fs|
  {
    hide BlocksOf, CacheFor, CfgUpTo, AllJumpsResolved, AfterBlock, ChunkCost, PathFromTo, Edge, ValidEnv, WellSized;
    CacheSizes(code, env.table, cache);
    GraphSizes(code, env.table, cache, blocks, blockAtPc, g);
    if |fs| == 1 {
      WalkStarts(code, env.table, blocks, blockAtPc, g, fs[0]);
      assert fs == [fs[0]] && BlockIds(blockAtPc, fs) == [blockAtPc[0]];
    } else {
      var n := |fs| - 1;
      TracePrefix(env, code, fs, n);
      RunsFollowCfg(env, code, cache, blocks, blockAtPc, g, fs[..n]);
      var i := BlockIds(blockAtPc, fs[..n])[n - 1];
      BlockStepFollowsEdge(env, code, cache, blocks, blockAtPc, g, i, fs[n - 1]);
      ExtendWalk(g, blocks, blockAtPc, fs, n);
    }
  }

  /** The metering charges every execution that stops at a settling block exactly the cost of its blocks. */
  lemma RunsAreMetered<W(!new)>(
    env: Env<W>, code: seq<byte>, cache: Cache, blocks: seq<GasBlock>, blockAtPc: seq<nat>,
    g: seq<GasBlock>, g': seq<GasBlock>, splits: seq<(nat, nat)>, m: seq<nat>, fs: seq<Frame<W>>)
    requires ValidEnv(env) && CacheFor(code, env.table, cache) && BlocksOf(code, env.table, blocks, blockAtPc)
    requires AllJumpsResolved(cache.jumpDest, cache.pushValue, blocks)
    requires CfgUpTo(code, cache.jumpDest, cache.pushValue, blocks, g, |blocks|)
    requires SplitOf(g, g', splits) && Conserves(g', m) && BlockTrace(env, code, fs)
    ensures var p := BlockIds(blockAtPc, fs);
            p[|p| - 1] < |g| && SettlesHere(g[p[|p| - 1]]) ==> PathSum(m, Expand(g, splits, p)) == PathSum(Costs(g), p)
  {
    assert |blockAtPc| == |code|;
    hide BlocksOf, CacheFor, CfgUpTo, AllJumpsResolved, Conserves, SplitOf, BlockStep;
    RunsFollowCfg(env, code, cache, blocks, blockAtPc, g, fs);
    var p := BlockIds(blockAtPc, fs);
    if SettlesHere(g[p[|p| - 1]]) {
      OriginalPathsCharged(g, g', splits, m, p, p[|p| - 1]);
    }
  }
}
