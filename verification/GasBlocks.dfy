/**
 Partition of bytecode into gas blocks ("chunks").

 `IsChunkStart`, `ChunkEnd` and `ChunkSum` define the partition from the code alone.
 `BuildGasBlocks` is the source's two-pass construction; it is proved to return exactly
 that partition, tiling the instruction stream.
 */
module GasBlocks {
  import opened Basics
  import opened Bytecode
  import opened PushDecoding

  const UINT32_MAX: nat := 0xFFFF_FFFF

  /** Code offsets and block ends fit the source's 32-bit fields. */
  const MAX_CODE_SIZE: nat := 0xFFFF_FF00

  /** Static gas per opcode. The metrics table holds 16-bit signed values; it is negative
      only for opcodes the revision does not define. */
  type CostTable = t: seq<int> | |t| == 256 && forall i :: 0 <= i < 256 ==> -0x8000 <= t[i] < 0x8000
    witness seq(256, _ => 0)

  datatype GasBlock = GasBlock(
    start: nat, end: nat, lastPc: nat, prevPc: nat, lastOpcode: int, prevOpcode: int,
    cost: nat, succs: seq<nat>, preds: seq<nat>)

  predicate IsChunkStart(code: seq<byte>, p: nat) {
    p < |code| && Follows(code, 0, p) && (p == 0 || code[p] == OP_JUMPDEST || AfterTerminator(code, 0, p))
  }

  /** `p` is the last instruction of its chunk. */
  predicate ChunkStopsAfter(code: seq<byte>, p: nat)
    requires p < |code|
  {
    IsGasChunkTerminator(code[p]) || Next(code, p) >= |code| || IsChunkStart(code, Next(code, p))
  }

  /** Where the chunk holding the instruction at `p` ends. */
  function ChunkEnd(code: seq<byte>, p: nat): (e: nat)
    requires p < |code|
    ensures p < e
    decreases |code| - p
  {
    if ChunkStopsAfter(code, p) then Next(code, p) else ChunkEnd(code, Next(code, p))
  }

  /** Sum of the static costs from `p` to the end of its chunk, as a mathematical integer. */
  function ChunkSum(code: seq<byte>, table: CostTable, p: nat): (c: int)
    requires p < |code|
    decreases |code| - p
  {
    table[code[p]] + if ChunkStopsAfter(code, p) then 0 else ChunkSum(code, table, Next(code, p))
  }

  /** The 64-bit cost the cache stores for the chunk that starts at `p`. */
  function ChunkCost(code: seq<byte>, table: CostTable, p: nat): (c: nat)
    requires p < |code|
  {
    ChunkSum(code, table, p) % TWO64
  }

  lemma {:induction false} ChunkEndFollows(code: seq<byte>, p: nat)
    requires p < |code|
    ensures Follows(code, p, ChunkEnd(code, p))
    decreases |code| - p
  {
    if !ChunkStopsAfter(code, p) {
      ChunkEndFollows(code, Next(code, p));
    }
  }

  /** A chunk ends at the end of the code or at another chunk's start. */
  lemma {:induction false} ChunkEndIsStart(code: seq<byte>, p: nat)
    requires p < |code| && Follows(code, 0, p)
    ensures ChunkEnd(code, p) >= |code| || IsChunkStart(code, ChunkEnd(code, p))
    decreases |code| - p
  {
    FollowsNext(code, 0, p);
    AfterTerminatorAt(code, 0, p);
    if !ChunkStopsAfter(code, p) {
      ChunkEndIsStart(code, Next(code, p));
    }
  }

  /** Inside a chunk, only the last instruction ends it and only the first can start one. */
  lemma {:induction false} ChunkInterior(code: seq<byte>, p: nat, q: nat)
    requires p < |code| && Follows(code, 0, p)
    requires Follows(code, p, q) && q < ChunkEnd(code, p)
    ensures q < |code|
    ensures IsGasChunkTerminator(code[q]) ==> Next(code, q) == ChunkEnd(code, p)
    ensures p < q ==> !IsChunkStart(code, q) && code[q] != OP_JUMPDEST
    ensures ChunkEnd(code, q) == ChunkEnd(code, p)
    decreases |code| - p
  {
    if p < q {
      FollowsOrdered(code, Next(code, p), q);
      FollowsNext(code, 0, p);
      assert !ChunkStopsAfter(code, p);
      ChunkInterior(code, Next(code, p), q);
    }
  }

  /** The blocks cover the instruction stream with no gap, overlap or repetition. */
  predicate Tiles(code: seq<byte>, blocks: seq<GasBlock>, upTo: nat) {
    && (|blocks| == 0 ==> upTo == 0)
    && (|blocks| > 0 ==> blocks[0].start == 0 && blocks[|blocks| - 1].end == upTo)
    && (forall i :: 0 <= i < |blocks| - 1 ==> blocks[i].end == blocks[i + 1].start)
    && (forall i :: 0 <= i < |blocks| ==> blocks[i].start < |code| && blocks[i].start < blocks[i].end)
  }

  /** `prevPc` and `prevOpcode` name the instruction before `lastPc`, or are 0 when there is none. */
  predicate RecordsPrevious(code: seq<byte>, start: nat, lastPc: nat, prevPc: nat, prevOpcode: int) {
    if lastPc == start then
      prevPc == 0 && prevOpcode == 0
    else
      Follows(code, start, prevPc) && prevPc < |code| && Next(code, prevPc) == lastPc && prevOpcode == code[prevPc]
  }

  /** The block records exactly the chunk at its start. */
  predicate DescribesChunk(code: seq<byte>, table: CostTable, b: GasBlock) {
    && IsChunkStart(code, b.start)
    && b.end == ChunkEnd(code, b.start)
    && b.cost == ChunkCost(code, table, b.start)
    && Follows(code, b.start, b.lastPc) && b.lastPc < |code|
    && Next(code, b.lastPc) == b.end && b.lastOpcode == code[b.lastPc]
    && RecordsPrevious(code, b.start, b.lastPc, b.prevPc, b.prevOpcode)
    && b.succs == [] && b.preds == []
  }

  /** First pass: mark the chunk starts. */
  method MarkBlockStarts(code: seq<byte>) returns (isStart: seq<bool>)
    requires 0 < |code|
    ensures |isStart| == |code|
    ensures forall p :: 0 <= p < |code| ==> isStart[p] == IsChunkStart(code, p)
  {
    isStart := seq(|code|, i => i == 0);
    var pc := 0;
    while pc < |code|
      invariant |isStart| == |code|
      invariant Follows(code, 0, pc)
      invariant forall p :: 0 <= p < |code| && p < pc ==> isStart[p] == IsChunkStart(code, p)
      invariant pc < |code| ==> isStart[pc] == (pc == 0 || AfterTerminator(code, 0, pc))
      invariant forall p :: pc < p < |code| ==> !isStart[p]
    {
      FollowsNext(code, 0, pc);
      AfterTerminatorAt(code, 0, pc);
      forall q | pc < q < Next(code, pc)
        ensures !Follows(code, 0, q)
      {
        NoBoundaryInside(code, pc, q);
      }
      if code[pc] == OP_JUMPDEST {
        isStart := isStart[pc := true];
      }
      var nextPc := pc + OpcodeLen(code[pc]);
      if IsGasChunkTerminator(code[pc]) && nextPc < |code| {
        isStart := isStart[nextPc := true];
      }
      pc := nextPc;
    }
  }

  /** Second pass, one block: scan from a start to the next start or past a terminator. */
  method ScanBlock(code: seq<byte>, table: CostTable, isStart: seq<bool>, start: nat) returns (block: GasBlock)
    requires |isStart| == |code| && forall p :: 0 <= p < |code| ==> isStart[p] == IsChunkStart(code, p)
    requires IsChunkStart(code, start)
    ensures DescribesChunk(code, table, block) && block.start == start
  {
    var lastPc: nat, prevPc: nat, lastOpcode, prevOpcode, cost: nat := 0, UINT32_MAX, 0, 0, 0;
    var curPc: nat, stop := start, false;
    ghost var sum := 0;
    while curPc < |code| && !stop
      invariant start <= curPc && Follows(code, start, curPc)
      invariant cost == sum % TWO64
      invariant curPc == start ==> !stop && lastPc == 0 && lastOpcode == 0 && sum == 0
      invariant curPc > start ==>
                  lastPc < |code| && Follows(code, start, lastPc) && Next(code, lastPc) == curPc
                  && lastOpcode == code[lastPc] && RecordsPrevious(code, start, lastPc, prevPc, prevOpcode)
      invariant curPc > start && (stop || curPc >= |code| || isStart[curPc]) ==>
                  curPc == ChunkEnd(code, start) && sum == ChunkSum(code, table, start)
      invariant curPc < |code| && !stop && !(curPc > start && isStart[curPc]) ==>
                  ChunkEnd(code, start) == ChunkEnd(code, curPc)
                  && ChunkSum(code, table, start) == sum + ChunkSum(code, table, curPc)
      decreases |code| - curPc, !stop
    {
      if curPc != start && isStart[curPc] {
        break;
      }
      var op := code[curPc];
      prevPc := lastPc;
      prevOpcode := lastOpcode;
      lastPc := curPc;
      lastOpcode := op;
      cost := (cost + table[op]) % TWO64;
      ModAdd(sum, table[op]);
      sum := sum + table[op];
      FollowsNext(code, start, curPc);
      curPc := curPc + OpcodeLen(op);
      stop := IsGasChunkTerminator(op);
    }
    block := GasBlock(start, curPc, lastPc, prevPc, lastOpcode, prevOpcode, cost, [], []);
  }

  lemma ModAdd(a: int, b: int)
    ensures (a % TWO64 + b) % TWO64 == (a + b) % TWO64
  {
  }

  /** `blockAtPc[p]` names the block starting at `p`, or is `UINT32_MAX`. */
  predicate MapsPc(code: seq<byte>, blocks: seq<GasBlock>, blockAtPc: seq<nat>, p: nat)
    requires p < |blockAtPc|
  {
    if IsChunkStart(code, p) then blockAtPc[p] < |blocks| && blocks[blockAtPc[p]].start == p
    else blockAtPc[p] == UINT32_MAX
  }

  /** The blocks built when the scan has reached `pc`. */
  predicate BuiltUpTo(code: seq<byte>, table: CostTable, blocks: seq<GasBlock>, blockAtPc: seq<nat>, pc: nat) {
    && |blockAtPc| == |code| && |blocks| <= pc
    && (pc < |code| ==> IsChunkStart(code, pc))
    && Tiles(code, blocks, pc)
    && (forall i :: 0 <= i < |blocks| ==> DescribesChunk(code, table, blocks[i]))
    && (forall p :: 0 <= p < |code| && p < pc ==> MapsPc(code, blocks, blockAtPc, p))
    && (forall p :: pc <= p < |code| ==> blockAtPc[p] == UINT32_MAX)
  }

  lemma AppendBlockMaps(code: seq<byte>, table: CostTable, blocks: seq<GasBlock>, blockAtPc: seq<nat>, block: GasBlock, q: nat)
    requires BuiltUpTo(code, table, blocks, blockAtPc, block.start) && DescribesChunk(code, table, block)
    requires q < |code| && q < block.end
    ensures MapsPc(code, blocks + [block], blockAtPc[block.start := |blocks|], q)
  {
    if block.start < q {
      NoStartInside(code, block.start, q);
    } else if q < block.start {
      assert MapsPc(code, blocks, blockAtPc, q);
    }
  }

  lemma ChunkBounds(code: seq<byte>, table: CostTable, block: GasBlock)
    requires DescribesChunk(code, table, block) && (block.start < |code| ==> IsChunkStart(code, block.start))
    ensures block.start < block.end && block.start < |code| && (block.end < |code| ==> IsChunkStart(code, block.end))
  {
    ChunkEndIsStart(code, block.start);
  }

  lemma AppendBlock(code: seq<byte>, table: CostTable, blocks: seq<GasBlock>, blockAtPc: seq<nat>, block: GasBlock)
    requires BuiltUpTo(code, table, blocks, blockAtPc, block.start) && DescribesChunk(code, table, block)
    ensures BuiltUpTo(code, table, blocks + [block], blockAtPc[block.start := |blocks|], block.end)
  {
    hide MapsPc, IsChunkStart, ChunkEnd, DescribesChunk;
    assert block.start < |code| && block.end > block.start && (block.end < |code| ==> IsChunkStart(code, block.end)) by {
      ChunkBounds(code, table, block);
    }
    var blocks', map' := blocks + [block], blockAtPc[block.start := |blocks|];
    forall q | 0 <= q < |code| && q < block.end
      ensures MapsPc(code, blocks', map', q)
    {
      AppendBlockMaps(code, table, blocks, blockAtPc, block, q);
    }
    assert Tiles(code, blocks', block.end);
  }

  /**
   The blocks of a code string and the map from each chunk start to its block
   (`UINT32_MAX` elsewhere).
   */
  method BuildGasBlocks(code: seq<byte>, table: CostTable) returns (blocks: seq<GasBlock>, blockAtPc: seq<nat>)
    requires |code| <= MAX_CODE_SIZE
    ensures |blocks| <= |code| == |blockAtPc|
    ensures forall i :: 0 <= i < |blocks| ==> DescribesChunk(code, table, blocks[i])
    ensures exists e :: e >= |code| && Tiles(code, blocks, e)
    ensures forall p :: 0 <= p < |code| ==> MapsPc(code, blocks, blockAtPc, p)
  {
    blocks, blockAtPc := [], [];
    if |code| == 0 {
      assert Tiles(code, blocks, 0);
      return;
    }
    var isStart := MarkBlockStarts(code);
    blockAtPc := seq(|code|, _ => UINT32_MAX);
    var pc := 0;
    while pc < |code|
      invariant BuiltUpTo(code, table, blocks, blockAtPc, pc) && |blocks| <= |code|
    {
      if !isStart[pc] {
        pc := pc + 1;
        continue;
      }
      var block := ScanBlock(code, table, isStart, pc);
      AppendBlock(code, table, blocks, blockAtPc, block);
      blockAtPc := blockAtPc[pc := |blocks|];
      blocks := blocks + [block];
      pc := block.end;
    }
    assert Tiles(code, blocks, pc);
  }

  lemma NoStartInside(code: seq<byte>, p: nat, q: nat)
    requires IsChunkStart(code, p) && p < q < ChunkEnd(code, p)
    ensures !IsChunkStart(code, q)
  {
    if IsChunkStart(code, q) {
      FollowsLinear(code, 0, p, q);
      ChunkInterior(code, p, q);
    }
  }

  /** Every legal jump target starts a chunk. */
  lemma JumpTargetsStartChunks(code: seq<byte>, d: nat)
    requires ValidJumpDest(code, d)
    ensures IsChunkStart(code, d)
  {
  }

  /**
   The target of a jump whose destination the preceding PUSH fixes: the block ends in
   PUSH n; JUMP or PUSH n; JUMPI and n is a legal destination.
   */
  function ResolveConstantJumpTarget(jumpDest: seq<bool>, pushValue: seq<word>, b: GasBlock): (d: Option<nat>)
    requires |jumpDest| == |pushValue|
    requires b.prevPc < |pushValue| || b.prevPc == UINT32_MAX
  {
    if !IsJump(b.lastOpcode) || b.prevPc == UINT32_MAX then None
    else if !IsPush(b.prevOpcode) then None
    else if b.prevPc + OpcodeLen(b.prevOpcode) != b.lastPc then None
    else if b.prevPc >= |pushValue| then None
    else
      var value := pushValue[b.prevPc];
      if value >= TWO64 || value >= |jumpDest| || !jumpDest[value] then None else Some(value)
  }
}
