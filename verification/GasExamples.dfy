/**
 Programs worked out from their bytes: two on which the analysis falls short of its purpose
 (blocks, graph, dominator sets and metering), and one from loading to its output.
 */
module GasExamples {
  import opened Basics
  import opened Bytecode
  import opened PushDecoding
  import opened GasBlocks
  import opened Semantics
  import opened FrameLaws
  import opened ControlFlow
  import opened Dominators
  import opened CriticalEdges
  import opened Metering
  import opened GasChunks

  const UNDEFINED: byte := 0x0c

  /** PC; JUMPDEST; three undefined opcodes. */
  const WRAPPING: seq<byte> := [OP_PC, OP_JUMPDEST, UNDEFINED, UNDEFINED, UNDEFINED]

  /** JUMPDEST; JUMPDEST; PUSH1 0; JUMP. */
  const LOOPING: seq<byte> := [OP_JUMPDEST, OP_JUMPDEST, OP_PUSH1, 0, OP_JUMP]

  /** The graph of a program and its form without critical edges, as the analysis computes them. */
  ghost predicate GraphOf(
    code: seq<byte>, table: CostTable, jumpDest: seq<bool>, pushValue: seq<word>,
    blocks: seq<GasBlock>, blockAtPc: seq<nat>, g: seq<GasBlock>, g': seq<GasBlock>, splits: seq<(nat, nat)>)
  {
    && BlocksOf(code, table, blocks, blockAtPc) && MapsOf(code, jumpDest, pushValue)
    && CfgUpTo(code, jumpDest, pushValue, blocks, g, |blocks|)
    && SplitOf(g, g', splits) && forall e :: e in splits <==> Critical(g, e.0, e.1)
  }

  /** A program with chunks [0, 1) and [1, 5). */
  lemma TwoBlocks(code: seq<byte>, table: CostTable, blocks: seq<GasBlock>, blockAtPc: seq<nat>)
    requires BlocksOf(code, table, blocks, blockAtPc) && |code| == 5 && ChunkEnd(code, 0) == 1 && ChunkEnd(code, 1) == 5
    ensures |blocks| == 2 && blocks[0].start == 0 && blocks[0].end == blocks[1].start == 1 && blocks[1].end == 5
  {
    var e :| e >= |code| && Tiles(code, blocks, e);
    assert DescribesChunk(code, table, blocks[0]);
    assert blocks[0].end == blocks[0 + 1].start;
    assert DescribesChunk(code, table, blocks[1]);
    MoreTiles(code, blocks, e, 1);
  }

  lemma MoreTiles(code: seq<byte>, blocks: seq<GasBlock>, e: nat, i: nat)
    requires Tiles(code, blocks, e)
    ensures i + 1 < |blocks| ==> blocks[i].end < |code|
  {
    assert i + 1 < |blocks| ==> blocks[i].end == blocks[i + 1].start;
  }

  lemma WrappingChunks(table: CostTable)
    requires table[OP_PC] == 2 && table[OP_JUMPDEST] == 1 && table[UNDEFINED] == -1
    ensures ChunkEnd(WRAPPING, 0) == 1 && ChunkEnd(WRAPPING, 1) == 5
    ensures ChunkCost(WRAPPING, table, 0) == 2 && ChunkCost(WRAPPING, table, 1) == TWO64 - 2
  {
    var code := WRAPPING;
    assert forall p :: 0 <= p < 5 ==> Next(code, p) == p + 1;
    assert forall p :: 0 <= p < 5 ==> !IsGasChunkTerminator(code[p]);
    assert Follows(code, 1, 1) && Follows(code, 0, 1);
    assert IsChunkStart(code, 1);
    forall p: nat | 2 <= p < 5
      ensures !IsChunkStart(code, p)
    {
      NoTerminatorBefore(code, 0, p);
    }
    assert ChunkStopsAfter(code, 0) && ChunkStopsAfter(code, 4);
    assert !ChunkStopsAfter(code, 1) && !ChunkStopsAfter(code, 2) && !ChunkStopsAfter(code, 3);
    assert ChunkEnd(code, 3) == ChunkEnd(code, 4) == 5;
    assert ChunkSum(code, table, 3) == -1 + ChunkSum(code, table, 4);
    assert ChunkSum(code, table, 1) == 1 - 1 + ChunkSum(code, table, 3);
  }

  lemma {:induction false} NoTerminatorBefore(code: seq<byte>, s: nat, p: nat)
    requires forall q :: 0 <= q < |code| ==> !IsGasChunkTerminator(code[q])
    ensures !AfterTerminator(code, s, p)
    decreases if s < p then p - s else 0
  {
    if s < p && s < |code| && Next(code, s) != p {
      NoTerminatorBefore(code, Next(code, s), p);
    }
  }

  lemma AtMostOne(s: seq<nat>, x: nat)
    requires Distinct(s) && forall y :: y in s ==> y == x
    ensures |s| <= 1
  {
    if s != [] {
      assert s[0] in s && s[|s| - 1] in s;
    }
  }

  /** One edge, from the first block to the second. */
  ghost predicate OneEdge(g: seq<GasBlock>) {
    && |g| == 2 && (forall u: nat, v: nat :: Edge(g, u, v) <==> u == 0 && v == 1)
    && |g[0].succs| == |g[1].preds| == 1 && g[1].start != 0 && g[0].start == 0
    && g[0].lastOpcode == OP_PC && Costs(g) == [2, TWO64 - 2]
  }

  lemma WrappingGraph(
    table: CostTable, jumpDest: seq<bool>, pushValue: seq<word>,
    blocks: seq<GasBlock>, blockAtPc: seq<nat>, g: seq<GasBlock>, g': seq<GasBlock>, splits: seq<(nat, nat)>)
    requires table[OP_PC] == 2 && table[OP_JUMPDEST] == 1 && table[UNDEFINED] == -1
    requires GraphOf(WRAPPING, table, jumpDest, pushValue, blocks, blockAtPc, g, g', splits)
    ensures OneEdge(g')
  {
    WrappingChunks(table);
    TwoBlocks(WRAPPING, table, blocks, blockAtPc);
    assert DescribesChunk(WRAPPING, table, blocks[0]) && DescribesChunk(WRAPPING, table, blocks[1]);
    assert blocks[0].lastOpcode == OP_PC && blocks[1].lastOpcode == UNDEFINED;
    hide Follows, ChunkEnd, ChunkCost, Tiles, MapsPc, BlocksOf, MapsOf, DescribesChunk, Resolve, SplitOf;
    assert SameBlock(blocks[0], g[0]) && SameBlock(blocks[1], g[1]);
    forall u: nat, v: nat
      ensures Edge(g, u, v) <==> u == 0 && v == 1
    {
    }
    AtMostOne(g[0].succs, 1);
    AtMostOne(g[1].preds, 0);
    AtMostOne(g[1].succs, 0);
    assert 1 in g[0].succs && 0 in g[1].preds;
    Unsplit(g, g', splits);
  }

  lemma Unsplit(g: seq<GasBlock>, g': seq<GasBlock>, splits: seq<(nat, nat)>)
    requires |g| == 2 && SplitOf(g, g', splits) && (forall e :: e in splits <==> Critical(g, e.0, e.1))
    requires |g[0].succs| <= 1 && |g[1].succs| <= 1
    ensures |g'| == 2 && SameBlock(g[0], g'[0]) && SameBlock(g[1], g'[1])
    ensures SameDegree(g[0], g'[0]) && SameDegree(g[1], g'[1])
    ensures forall u: nat, v: nat :: Edge(g', u, v) <==> Edge(g, u, v)
  {
    hide Critical;
    if splits != [] {
      assert splits[0] in splits;
      CriticalBranches(g, splits[0].0, splits[0].1);
      assert false;
    }
  }

  lemma CriticalBranches(g: seq<GasBlock>, u: nat, v: nat)
    requires Critical(g, u, v)
    ensures u < |g| && |g[u].succs| > 1
  {
  }

  lemma OneEdgePaths(g: seq<GasBlock>, p: seq<nat>, u: nat, v: nat)
    requires OneEdge(g) && PathFromTo(g, p, u, v)
    ensures (v == 0 ==> p == [0]) && (u == 1 ==> v == 1)
  {
    if |p| > 1 {
      LastEdge(g, p, u, v);
      assert Edge(g, p[0], p[0 + 1]);
    }
  }

  /** With exact dominators the second block takes part in the update of the first. */
  lemma OneEdgeEligible(
    g: seq<GasBlock>, m: seq<nat>, order: seq<nat>, dom: seq<set<nat>>, backEdges: seq<seq<nat>>, inCycle: seq<bool>,
    mask: set<nat>, states: seq<seq<nat>>)
    requires OneEdge(g) && MeteredBy(g, m, order, dom, backEdges, inCycle, mask, states)
    ensures !inCycle[0] && !inCycle[1]
    ensures forall u: nat, v: nat :: u < 2 ==> (Eligible(g, backEdges, mask, u, v) <==> u == 0 && v == 1)
  {
    hide Updates, Updated;
    forall u: nat | u < 2
      ensures !OnCycle(g, u)
    {
      forall v | Edge(g, u, v) && Reaches(g, v, u)
        ensures false
      {
        var p :| PathFromTo(g, p, v, u);
        OneEdgePaths(g, p, v, u);
      }
    }
    assert EntryUnreached(g, 0);
    ReachesSelf(g, 0);
    assert PathFromTo(g, [0], 0, 0) && 1 !in [0];
    assert 1 !in dom[0];
  }

  lemma QuietUpdate(
    g: seq<GasBlock>, backEdges: seq<seq<nat>>, inCycle: seq<bool>, mask: set<nat>, m: seq<nat>, m': seq<nat>)
    requires |g| == |backEdges| == |inCycle| == |m| == 2 && Updated(g, backEdges, inCycle, mask, 1, m, m')
    requires forall v: nat :: !Eligible(g, backEdges, mask, 1, v)
    ensures m' == m
  {
  }

  lemma WrappingUpdate(
    g: seq<GasBlock>, backEdges: seq<seq<nat>>, inCycle: seq<bool>, mask: set<nat>, m: seq<nat>, m': seq<nat>)
    requires OneEdge(g) && |backEdges| == |inCycle| == 2 && m == Costs(g) && !inCycle[0]
    requires Updated(g, backEdges, inCycle, mask, 0, m, m')
    requires forall v: nat :: Eligible(g, backEdges, mask, 0, v) <==> v == 1
    ensures m' == [0, 0]
  {
    hide Eligible;
    assert !NothingToMove(g, backEdges, mask, 0, m);
    var x: nat :| MovesLeast(g, backEdges, mask, 0, m, m', x);
    assert x == TWO64 - 2;
    assert m' == [m'[0], m'[1]];
  }

  /**
   The second block's cost of -2 is stored as 2^64 - 2. Moved to the first block, whose cost
   is 2, it wraps to 0: the metering charges nothing, and running the first block is
   undercharged.
   */
  lemma WrappedMeteringUndercharges(
    table: CostTable, jumpDest: seq<bool>, pushValue: seq<word>,
    blocks: seq<GasBlock>, blockAtPc: seq<nat>, g: seq<GasBlock>, g': seq<GasBlock>, splits: seq<(nat, nat)>,
    m: seq<nat>, order: seq<nat>, dom: seq<set<nat>>, backEdges: seq<seq<nat>>, inCycle: seq<bool>, mask: set<nat>,
    states: seq<seq<nat>>)
    requires table[OP_PC] == 2 && table[OP_JUMPDEST] == 1 && table[UNDEFINED] == -1
    requires GraphOf(WRAPPING, table, jumpDest, pushValue, blocks, blockAtPc, g, g', splits)
    requires MeteredBy(g', m, order, dom, backEdges, inCycle, mask, states)
    ensures Costs(g') == [2, TWO64 - 2] && m == [0, 0] && !Conserves(g', m)
  {
    hide GraphOf, Updated, DominatorSets, BackEdgesOf, OnCycle, Eligible;
    WrappingGraph(table, jumpDest, pushValue, blocks, blockAtPc, g, g', splits);
    OneEdgeEligible(g', m, order, dom, backEdges, inCycle, mask, states);
    TwoUpdates(order);
    assert Updated(g', backEdges, inCycle, mask, order[0], states[0], states[0 + 1]);
    assert Updated(g', backEdges, inCycle, mask, order[1], states[1], states[1 + 1]);
    if order[0] == 0 {
      WrappingUpdate(g', backEdges, inCycle, mask, states[0], states[1]);
      QuietUpdate(g', backEdges, inCycle, mask, states[1], states[2]);
    } else {
      QuietUpdate(g', backEdges, inCycle, mask, states[0], states[1]);
      WrappingUpdate(g', backEdges, inCycle, mask, states[1], states[2]);
    }
    assert PathFromTo(g', [0], 0, 0);
    PathSumCons(m, 0, []);
    PathSumCons(Costs(g'), 0, []);
    assert [0] + [] == [0];
  }

  lemma TwoUpdates(order: seq<nat>)
    requires Distinct(order) && forall v: nat :: v in order <==> v < 2
    ensures |order| == 2 && (order == [0, 1] || order == [1, 0])
  {
    assert 0 in order && 1 in order;
    assert order[0] in order && order[1] in order && order[|order| - 1] in order;
  }

  /** The analysis of the program, from its bytes. */
  method MeterWrapping(table: CostTable) returns (g': seq<GasBlock>, m: seq<nat>)
    requires table[OP_PC] == 2 && table[OP_JUMPDEST] == 1 && table[UNDEFINED] == -1
    ensures Costs(g') == [2, TWO64 - 2] && m == [0, 0] && !Conserves(g', m)
  {
    hide Conserves, MeteredBy, NeverWraps, DescribesChunk, Tiles, MapsPc, CfgUpTo, SplitOf, NoCriticalEdges, Critical;
    var jumpDest, pushValue := BuildJumpDestMapAndPushCache(WRAPPING);
    var blocks, blockAtPc := BuildGasBlocks(WRAPPING, table);
    assert |blocks| > 0 by { SomeBlock(WRAPPING, table, blocks, blockAtPc); }
    ghost var g, splits;
    g, g', m, splits := ComputeMetering(WRAPPING, table, blocks, blockAtPc, jumpDest, pushValue);
    ghost var order, dom, backEdges, inCycle, mask, states :| MeteredBy(g', m, order, dom, backEdges, inCycle, mask, states);
    WrappedMeteringUndercharges(
      table, jumpDest, pushValue, blocks, blockAtPc, g, g', splits, m, order, dom, backEdges, inCycle, mask, states);
  }

  lemma SomeBlock(code: seq<byte>, table: CostTable, blocks: seq<GasBlock>, blockAtPc: seq<nat>)
    requires BlocksOf(code, table, blocks, blockAtPc) && |code| > 0
    ensures |blocks| > 0
  {
  }

  lemma LoopingChunks()
    ensures ChunkEnd(LOOPING, 0) == 1 && ChunkEnd(LOOPING, 1) == 5
    ensures Follows(LOOPING, 1, 4) && ValidJumpDest(LOOPING, 0) && PushImmediate(LOOPING, 2) == 0
    ensures forall p: nat :: p < 5 && Follows(LOOPING, 1, p) && Next(LOOPING, p) == 5 ==> p == 4
    ensures forall p: nat :: p < 5 && Follows(LOOPING, 1, p) && Next(LOOPING, p) == 4 ==> p == 2
  {
    var code := LOOPING;
    assert Next(code, 0) == 1 && Next(code, 1) == 2 && Next(code, 2) == 4 && Next(code, 4) == 5;
    assert Follows(code, 4, 4) && Follows(code, 2, 4) && Follows(code, 1, 4);
    assert Follows(code, 1, 1) && Follows(code, 0, 1) && IsChunkStart(code, 1);
    assert !AfterTerminator(code, 0, 2) && !AfterTerminator(code, 0, 4);
    assert ChunkStopsAfter(code, 0) && ChunkStopsAfter(code, 4);
    assert !ChunkStopsAfter(code, 1) && !ChunkStopsAfter(code, 2);
    assert ChunkEnd(code, 2) == ChunkEnd(code, 4) == 5;
    assert !Follows(code, 4, 3) && !Follows(code, 2, 3) && !Follows(code, 1, 3);
    assert ImmediateBytes(code, 2, 1) == [0] && [0][..0] == [];
  }

  lemma LoopingJump(
    table: CostTable, jumpDest: seq<bool>, pushValue: seq<word>, blocks: seq<GasBlock>, blockAtPc: seq<nat>)
    requires BlocksOf(LOOPING, table, blocks, blockAtPc) && MapsOf(LOOPING, jumpDest, pushValue)
    ensures |blocks| == 2 && blocks[0].start == 0 && blocks[1].start == 1
    ensures LeadsTo(LOOPING, jumpDest, pushValue, blocks[0], 1) && LeadsTo(LOOPING, jumpDest, pushValue, blocks[1], 0)
    ensures !FallsThrough(LOOPING, blocks[1]) && !IsJump(blocks[0].lastOpcode) && blocks[0].end == 1
  {
    LoopingChunks();
    TwoBlocks(LOOPING, table, blocks, blockAtPc);
    hide ChunkEnd, ChunkCost, Tiles, MapsPc, BlocksOf, BigEndian, PushImmediate;
    var b := blocks[1];
    Described(LOOPING, table, blocks, blockAtPc);
    assert DescribesChunk(LOOPING, table, blocks[0]) && DescribesChunk(LOOPING, table, b);
    assert blocks[0].lastPc == 0;
    assert b.lastPc == 4 && b.prevPc == 2;
    assert pushValue[2] == 0 && jumpDest[0];
    assert Resolve(jumpDest, pushValue, b) == Some(0);
  }

  lemma Described(code: seq<byte>, table: CostTable, blocks: seq<GasBlock>, blockAtPc: seq<nat>)
    requires BlocksOf(code, table, blocks, blockAtPc)
    ensures forall i :: 0 <= i < |blocks| ==> DescribesChunk(code, table, blocks[i])
  {
  }

  lemma LoopingGraph(
    table: CostTable, jumpDest: seq<bool>, pushValue: seq<word>,
    blocks: seq<GasBlock>, blockAtPc: seq<nat>, g: seq<GasBlock>, g': seq<GasBlock>, splits: seq<(nat, nat)>)
    requires GraphOf(LOOPING, table, jumpDest, pushValue, blocks, blockAtPc, g, g', splits)
    ensures |g'| == 2 && Edge(g', 0, 1) && Edge(g', 1, 0)
  {
    LoopingJump(table, jumpDest, pushValue, blocks, blockAtPc);
    hide LeadsTo, BlocksOf, MapsOf, SplitOf;
    assert Edge(g, 0, 1) && Edge(g, 1, 0);
    LoopingDegrees(jumpDest, pushValue, blocks, g);
    Unsplit(g, g', splits);
  }

  /**
   A jump back to offset 0 makes the iteration keep the full set everywhere. The second block
   is then recorded as dominating the first, and the edge into it as a back edge, although
   the first block is reached without it.
   */
  lemma LoopingEntryInexact(
    table: CostTable, jumpDest: seq<bool>, pushValue: seq<word>,
    blocks: seq<GasBlock>, blockAtPc: seq<nat>, g: seq<GasBlock>, g': seq<GasBlock>, splits: seq<(nat, nat)>,
    m: seq<nat>, order: seq<nat>, dom: seq<set<nat>>, backEdges: seq<seq<nat>>, inCycle: seq<bool>, mask: set<nat>,
    states: seq<seq<nat>>)
    requires GraphOf(LOOPING, table, jumpDest, pushValue, blocks, blockAtPc, g, g', splits)
    requires MeteredBy(g', m, order, dom, backEdges, inCycle, mask, states)
    ensures dom == [{0, 1}, {0, 1}] && 1 in backEdges[0] && !Dominates(g', 0, 1, 0)
  {
    hide GraphOf, Updates, OnCycle;
    LoopingGraph(table, jumpDest, pushValue, blocks, blockAtPc, g, g', splits);
    assert PathFromTo(g', [0, 1], 0, 1);
    assert PathFromTo(g', [0], 0, 0) && 1 !in [0];
    assert dom[0] == All(g') == dom[1] && All(g') == {0, 1};
    assert dom == [dom[0], dom[1]];
  }

  lemma LoopingDegrees(jumpDest: seq<bool>, pushValue: seq<word>, blocks: seq<GasBlock>, g: seq<GasBlock>)
    requires |jumpDest| == |pushValue| && CfgUpTo(LOOPING, jumpDest, pushValue, blocks, g, |blocks|) && |blocks| == 2
    requires blocks[0].start == 0 && blocks[1].start == 1 && !FallsThrough(LOOPING, blocks[1])
    requires !IsJump(blocks[0].lastOpcode) && blocks[0].end == 1
    requires LeadsTo(LOOPING, jumpDest, pushValue, blocks[0], 1) && LeadsTo(LOOPING, jumpDest, pushValue, blocks[1], 0)
    ensures |g[0].succs| <= 1 && |g[1].succs| <= 1
  {
    hide Resolve;
    AtMostOne(g[0].succs, 1);
    AtMostOne(g[1].succs, 0);
  }

  /** The program that stores a byte and returns it, loaded and run: its output is the byte as a word. */
  method ExecuteStoreAndReturn<W(!new)>(env: Env<W>, v: byte, gas: nat, world: W) returns (outcome: Outcome<W>)
    requires ValidEnv(env) && env.defined[OP_PUSH1] && env.defined[OP_MSTORE] && env.defined[OP_RETURN]
    ensures if gas < Price(env.table) then outcome.Exceptional?
            else outcome.Done? && !outcome.reverted && |outcome.output| == 32 && BigEndian(outcome.output) == v
                 && outcome.gas == gas - Price(env.table)
  {
    hide PerOpcodeRun, PlainKeepsFrame, SensitiveKeepsFrame, BigEndian;
    StoredByteIsReturned(env, v, gas, world);
    outcome := Execute(env, StoreAndReturn(v), gas, world);
  }
}
