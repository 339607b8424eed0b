/**
 The interpreter's fast path: pay for a whole gas chunk on entry, then run its opcodes
 without charging. The theorem is that this cannot be told apart from charging every
 opcode, over whole runs and for every code, stack and gas.
 */
module ChunkedInterpreter {
  import opened Basics
  import opened Bytecode
  import opened PushDecoding
  import opened GasBlocks
  import opened MemoryGas
  import opened Semantics
  import FrameLaws

  /** Every instruction from `p` to the end of its chunk is defined in this revision. */
  predicate ChunkDefined<W>(env: Env<W>, code: seq<byte>, p: nat)
    requires p < |code| && |env.defined| == 256
    decreases |code| - p
  {
    env.defined[code[p]] && (ChunkStopsAfter(code, p) || ChunkDefined(env, code, Next(code, p)))
  }

  /** Run without charging until the chunk ends, a jump is taken or the frame halts. */
  ghost function RunChunk<W(!new)>(env: Env<W>, code: seq<byte>, f: Frame<W>): (r: Step<W>)
    requires f.pc < |code| && ValidEnv(env) && ValidFrame(f)
    decreases |code| - f.pc
  {
    HandleKeepsFrame(env, code, f);
    var r := NoGasStep(env, code, f);
    if r.Continue? && !ChunkStopsAfter(code, f.pc) then RunChunk(env, code, r.frame) else r
  }

  lemma {:induction false} ChunkSumBounds<W>(env: Env<W>, code: seq<byte>, p: nat)
    requires p < |code| && ValidTable(env) && ChunkDefined(env, code, p)
    ensures 0 <= env.table[code[p]] <= ChunkSum(code, env.table, p) <= 0x8000 * (|code| - p)
    decreases |code| - p
  {
    if !ChunkStopsAfter(code, p) {
      ChunkSumBounds(env, code, Next(code, p));
    }
  }

  /** A frame with `extra` more gas. */
  function Richer<W>(f: Frame<W>, extra: nat): (r: Frame<W>) {
    f.(gas := f.gas + extra)
  }

  /**
   Inside a chunk a handler's effect does not depend on the gas: with more gas it does the
   same and keeps the surplus; where it ran out of gas it may now go on, but with less
   than the surplus left.
   */
  predicate ShiftsGas<W(==)>(poor: Step<W>, rich: Step<W>, extra: nat) {
    match poor
    case Continue(f) => rich == Continue(Richer(f, extra))
    case Fail(_) => rich.Fail? || (rich.Continue? && rich.frame.gas < extra)
    case _ => false
  }

  lemma ExpandShiftsGas(bytes: seq<byte>, gas: nat, extra: nat, offset: word, size: word)
    requires WellSized(bytes)
    ensures match CheckExpand(Memory(bytes, gas), offset, size)
            case Some(m) => CheckExpand(Memory(bytes, gas + extra), offset, size) == Some(Memory(m.bytes, m.gas + extra))
            case None =>
              var rich := CheckExpand(Memory(bytes, gas + extra), offset, size);
              rich.Some? ==> rich.value.gas < extra
  {
    CheckExpandExact(Memory(bytes, gas), Access(offset, size));
    CheckExpandExact(Memory(bytes, gas + extra), Access(offset, size));
  }

  lemma MLoadShiftsGas<W>(f: Frame<W>, extra: nat)
    requires ValidFrame(f)
    ensures ShiftsGas(MLoad(f), MLoad(Richer(f, extra)), extra)
  {
    hide CheckExpand, BigEndian;
    if |f.stack| >= 1 {
      ExpandShiftsGas(f.memory, f.gas, extra, Peek(f.stack, 1), 32);
    }
  }

  lemma MStoreShiftsGas<W>(f: Frame<W>, extra: nat, width: nat)
    requires ValidFrame(f) && (width == 32 || width == 1)
    ensures ShiftsGas(MStore(f, width), MStore(Richer(f, extra), width), extra)
  {
    hide CheckExpand, Written;
    if |f.stack| >= 2 {
      ExpandShiftsGas(f.memory, f.gas, extra, Peek(f.stack, 1), width);
    }
  }

  lemma PlainShiftsGas<W>(env: Env<W>, op: byte, f: Frame<W>, extra: nat)
    ensures ShiftsGas(RunPlain(env, op, f), RunPlain(env, op, Richer(f, extra)), extra)
  {
  }

  lemma StackShiftsGas<W>(f: Frame<W>, extra: nat, n: nat, v: word)
    requires 1 <= n
    ensures ShiftsGas(Pushed(f, v, n), Pushed(Richer(f, extra), v, n), extra)
    ensures ShiftsGas(Duplicated(f, n), Duplicated(Richer(f, extra), n), extra)
    ensures ShiftsGas(Swapped(f, n), Swapped(Richer(f, extra), n), extra)
  {
  }

  lemma HandleShiftsGas<W>(env: Env<W>, code: seq<byte>, f: Frame<W>, extra: nat)
    requires f.pc < |code| && ValidFrame(f) && !IsGasChunkTerminator(code[f.pc])
    ensures ShiftsGas(Handle(env, code, f), Handle(env, code, Richer(f, extra)), extra)
  {
    hide MLoad, MStore, RunPlain, Pushed, Duplicated, Swapped;
    var op := code[f.pc];
    MLoadShiftsGas(f, extra);
    MStoreShiftsGas(f, extra, 32);
    MStoreShiftsGas(f, extra, 1);
    PlainShiftsGas(env, op, f, extra);
    if OP_DUP1 <= op <= OP_DUP16 {
      StackShiftsGas(f, extra, op - OP_DUP1 + 1, 0);
    } else if OP_SWAP1 <= op <= OP_SWAP16 {
      StackShiftsGas(f, extra, op - OP_SWAP1 + 1, 0);
    } else if IsPush(op) {
      LoadPushValueCorrect(code, f.pc, op - OP_PUSH1 + 1);
      StackShiftsGas(f, extra, OpcodeLen(op), PushImmediate(code, f.pc));
    } else {
      StackShiftsGas(f, extra, 1, if op == OP_PC then f.pc % TWO256 else if op == OP_MSIZE then |f.memory| else 0);
    }
  }

  /** One instruction, in one place, whose effect does not depend on the gas. */
  predicate ShiftsAt(env: Env<int>, code: seq<byte>, f: Frame<int>, extra: nat)
    requires f.pc < |code| && ValidFrame(f)
  {
    ShiftsGas(Handle(env, code, f), Handle(env, code, Richer(f, extra)), extra)
  }

  /** The instruction stays on its line and its effect does not depend on the gas, wherever it is executed. */
  ghost predicate Transparent(op: byte) {
    forall env: Env<int>, code: seq<byte>, f: Frame<int>, extra: nat ::
      f.pc < |code| && ValidFrame(f) && code[f.pc] == op ==> ShiftsAt(env, code, f, extra)
  }

  /** An environment whose gas-sensitive handlers take half of the gas. */
  function Halving(): (env: Env<int>) {
    Env([], seq(256, _ => 0), _ => 0, (_, _, _, _) => PlainFail(HostError),
        (op: byte, st: seq<word>, mem: seq<byte>, w: int, g: nat) =>
          if op == OP_SELFDESTRUCT then SensitiveStop(g, w) else SensitiveOk(g / 2, st, mem, w))
  }

  /**
   Chunks end where they must and nowhere else: apart from INVALID, which never goes on, the
   opcodes that end a chunk are exactly those that may leave the line or whose effect
   depends on the gas.
   */
  lemma ChunkTerminatorsExact(op: byte)
    requires op != OP_INVALID
    ensures IsGasChunkTerminator(op) <==> !Transparent(op)
  {
    if IsGasChunkTerminator(op) {
      TerminatorNotTransparent(op);
    } else {
      forall env: Env<int>, code: seq<byte>, f: Frame<int>, extra: nat
        | f.pc < |code| && ValidFrame(f) && code[f.pc] == op
        ensures ShiftsAt(env, code, f, extra)
      {
        HandleShiftsGas(env, code, f, extra);
      }
    }
  }

  lemma TerminatorNotTransparent(op: byte)
    requires op != OP_INVALID && IsGasChunkTerminator(op)
    ensures !Transparent(op)
  {
    hide Handle, ShiftsAt;
    var code := [OP_JUMPDEST, op];
    var f := Frame(1, if op == OP_RETURN || op == OP_REVERT then [0, 0] else [1, 0], [], 0, 0);
    if op == OP_RETURN || op == OP_REVERT {
      ReturnLeaves(code, f);
    } else if op == OP_STOP || op == OP_JUMP || op == OP_JUMPI {
      JumpLeaves(code, f);
    } else {
      GasIsSeen(code, f);
    }
    assert !ShiftsAt(Halving(), code, f, 2);
  }

  lemma ReturnLeaves(code: seq<byte>, f: Frame<int>)
    requires f.pc < |code| && code[f.pc] in {OP_RETURN, OP_REVERT} && f == Frame(1, [0, 0], [], 0, 0)
    ensures !ShiftsAt(Halving(), code, f, 2)
  {
    hide MLoad, MStore, RunPlain, RunSensitive;
    assert CheckExpand(Memory([], 0), 0, 0) == Some(Memory([], 0));
  }

  lemma JumpLeaves(code: seq<byte>, f: Frame<int>)
    requires f.pc < |code| && code[f.pc] in {OP_STOP, OP_JUMP, OP_JUMPI} && f == Frame(1, [1, 0], [], 0, 0)
    requires code[0] == OP_JUMPDEST
    ensures !ShiftsAt(Halving(), code, f, 2)
  {
    hide MLoad, MStore, Return, RunPlain, RunSensitive;
    assert ValidJumpDest(code, 0);
  }

  lemma GasIsSeen(code: seq<byte>, f: Frame<int>)
    requires f.pc < |code| && f == Frame(1, [1, 0], [], 0, 0) && (code[f.pc] == OP_GAS || IsSensitive(code[f.pc]))
    ensures !ShiftsAt(Halving(), code, f, 2)
  {
    hide Handle;
    if code[f.pc] == OP_GAS {
      FrameLaws.ReadersPush(Halving(), code, f);
      FrameLaws.ReadersPush(Halving(), code, Richer(f, 2));
    } else {
      SensitiveHandled(Halving(), code, f);
      SensitiveHandled(Halving(), code, Richer(f, 2));
    }
  }

  lemma SensitiveHandled(env: Env<int>, code: seq<byte>, f: Frame<int>)
    requires f.pc < |code| && ValidFrame(f) && IsSensitive(code[f.pc])
    ensures Handle(env, code, f) == RunSensitive(env, code[f.pc], f)
  {
    hide MLoad, MStore, Return, RunPlain, RunSensitive;
  }

  /** With less gas than the rest of the chunk costs, charging per opcode ends exceptionally. */
  lemma {:induction false} PoorChunkFails<W(!new)>(env: Env<W>, code: seq<byte>, f: Frame<W>)
    requires ValidEnv(env) && ValidFrame(f) && f.pc < |code|
    requires ChunkDefined(env, code, f.pc) && f.gas < ChunkSum(code, env.table, f.pc)
    ensures PerOpcodeRun(env, code, f).Exceptional?
    decreases |code| - f.pc
  {
    hide Handle, PerOpcodeRun, PlainKeepsFrame, SensitiveKeepsFrame, IsChunkStart;
    ChunkSumBounds(env, code, f.pc);
    var op := code[f.pc];
    if op == OP_INVALID {
      InvalidFails(env, code, f);
    } else {
      assert op != OP_STOP;
      FrameLaws.RunStep(env, code, f);
      if f.gas >= env.table[op] {
        var paid := f.(gas := f.gas - env.table[op]);
        assert !ChunkStopsAfter(code, f.pc);
        HandleShiftsGas(env, code, paid, 0);
        HandleKeepsFrame(env, code, paid);
        match Handle(env, code, paid) {
          case Continue(f') => PoorChunkFails(env, code, f');
          case Fail(_) =>
        }
      }
    }
  }

  lemma InvalidFails<W(!new)>(env: Env<W>, code: seq<byte>, f: Frame<W>)
    requires ValidEnv(env) && ValidFrame(f) && f.pc < |code| && code[f.pc] == OP_INVALID
    ensures PerOpcodeRun(env, code, f).Exceptional?
  {
    hide Handle, PlainKeepsFrame, SensitiveKeepsFrame;
  }

  /** A chunk with an undefined opcode ahead ends exceptionally when charging per opcode. */
  lemma {:induction false} UndefinedChunkFailsSlow<W(!new)>(env: Env<W>, code: seq<byte>, f: Frame<W>)
    requires ValidEnv(env) && ValidFrame(f) && f.pc < |code| && !ChunkDefined(env, code, f.pc)
    ensures PerOpcodeRun(env, code, f).Exceptional?
    decreases |code| - f.pc
  {
    hide Handle;
    var op := code[f.pc];
    ChargedStepProgresses(env, code, f);
    if env.defined[op] && f.gas >= env.table[op] {
      var paid := f.(gas := f.gas - env.table[op]);
      assert ChargedStep(env, code, f) == Handle(env, code, paid);
      HandleShiftsGas(env, code, paid, 0);
      HandleKeepsFrame(env, code, paid);
      match Handle(env, code, paid) {
        case Continue(f') => UndefinedChunkFailsSlow(env, code, f');
        case Fail(_) =>
      }
    }
  }

  /** ... and so does the fast path, which never gets past the undefined opcode. */
  lemma {:induction false} UndefinedChunkFailsFast<W(!new)>(env: Env<W>, code: seq<byte>, f: Frame<W>)
    requires ValidEnv(env) && ValidFrame(f) && f.pc < |code| && !ChunkDefined(env, code, f.pc)
    ensures RunChunk(env, code, f).Fail?
    decreases |code| - f.pc
  {
    hide Handle;
    if env.defined[code[f.pc]] {
      HandleShiftsGas(env, code, f, 0);
      HandleKeepsFrame(env, code, f);
      match Handle(env, code, f) {
        case Continue(f') => UndefinedChunkFailsFast(env, code, f');
        case Fail(_) =>
      }
    }
  }

  /** The fast path's result `r` is what the per-opcode outcome `slow` continues from or ends with. */
  ghost predicate Agrees<W(!new)>(env: Env<W>, code: seq<byte>, slow: Outcome<W>, r: Step<W>)
    requires ValidEnv(env)
  {
    match r
    case Continue(f) => ValidFrame(f) && slow == PerOpcodeRun(env, code, f)
    case Jumped(f) => ValidFrame(f) && slow == PerOpcodeRun(env, code, f)
    case Stop(f, output) => slow == Finished(f, false, output)
    case Reverted(f, output) => slow == Finished(f, true, output)
    case Fail(_) => slow.Exceptional?
  }

  /** Where the fast path can leave a chunk entered at `p` with `gas` left after paying for it. */
  ghost predicate LeavesChunk<W>(code: seq<byte>, p: nat, gas: nat, r: Step<W>)
    requires p < |code|
  {
    match r
    case Continue(f) => f.pc == ChunkEnd(code, p) && f.gas <= gas
    case Jumped(f) => ValidJumpDest(code, f.pc) && f.gas <= gas
    case _ => true
  }

  lemma LastInstructionAgrees<W(!new)>(env: Env<W>, code: seq<byte>, f: Frame<W>)
    requires ValidEnv(env) && ValidFrame(f) && f.pc < |code|
    requires env.defined[code[f.pc]] && ChunkStopsAfter(code, f.pc)
    ensures Agrees(env, code, PerOpcodeRun(env, code, Richer(f, env.table[code[f.pc]])), RunChunk(env, code, f))
    ensures LeavesChunk(code, f.pc, f.gas, RunChunk(env, code, f))
  {
    var op := code[f.pc];
    var rich := Richer(f, env.table[op]);
    HandleKeepsFrame(env, code, f);
    ChargedStepProgresses(env, code, rich);
    if op == OP_STOP || op == OP_INVALID {
      assert RunChunk(env, code, f) == Handle(env, code, f);
    } else {
      hide Handle;
      assert rich.(gas := rich.gas - env.table[op]) == f;
      assert ChargedStep(env, code, rich) == Handle(env, code, f) == RunChunk(env, code, f);
    }
  }

  /** An instruction that is not the last: both paths fail, or both go on with the surplus unchanged. */
  lemma MiddleStepAgrees<W(!new)>(env: Env<W>, code: seq<byte>, f: Frame<W>, surplus: nat)
    requires ValidEnv(env) && ValidFrame(f) && f.pc < |code| && !ChunkStopsAfter(code, f.pc)
    requires ChunkDefined(env, code, f.pc) && surplus == ChunkSum(code, env.table, Next(code, f.pc))
    ensures var slow := PerOpcodeRun(env, code, Richer(f, env.table[code[f.pc]] + surplus));
            var r := Handle(env, code, f);
            && (r.Continue? || (r.Fail? && slow.Exceptional?))
            && (r.Continue? ==>
                  && ValidFrame(r.frame) && r.frame.pc == Next(code, f.pc) && r.frame.gas <= f.gas
                  && slow == PerOpcodeRun(env, code, Richer(r.frame, surplus)))
  {
    hide Handle;
    var op := code[f.pc];
    var rich := Richer(f, env.table[op] + surplus);
    ChargedStepProgresses(env, code, rich);
    assert rich.(gas := rich.gas - env.table[op]) == Richer(f, surplus);
    assert ChargedStep(env, code, rich) == Handle(env, code, Richer(f, surplus));
    HandleShiftsGas(env, code, f, surplus);
    HandleKeepsFrame(env, code, f);
    if Handle(env, code, f).Fail? && ChargedStep(env, code, rich).Continue? {
      PoorChunkFails(env, code, ChargedStep(env, code, rich).frame);
    }
  }

  /** Running the rest of a chunk prepaid agrees with charging it opcode by opcode. */
  lemma {:induction false} RunChunkAgrees<W(!new)>(env: Env<W>, code: seq<byte>, f: Frame<W>)
    requires ValidEnv(env) && ValidFrame(f) && f.pc < |code| && ChunkDefined(env, code, f.pc)
    ensures 0 <= ChunkSum(code, env.table, f.pc)
    ensures Agrees(env, code, PerOpcodeRun(env, code, Richer(f, ChunkSum(code, env.table, f.pc))), RunChunk(env, code, f))
    ensures LeavesChunk(code, f.pc, f.gas, RunChunk(env, code, f))
    decreases |code| - f.pc
  {
    hide Handle, PerOpcodeRun;
    ChunkSumBounds(env, code, f.pc);
    if ChunkStopsAfter(code, f.pc) {
      LastInstructionAgrees(env, code, f);
    } else {
      ChunkSumBounds(env, code, Next(code, f.pc));
      MiddleStepAgrees(env, code, f, ChunkSum(code, env.table, Next(code, f.pc)));
      match Handle(env, code, f) {
        case Continue(f') => RunChunkAgrees(env, code, f');
        case Fail(_) =>
      }
    }
  }

  /**
   Entering a chunk: paying its cached cost and running it without charges agrees with
   charging per opcode, also when undefined opcodes make the 64-bit cost wrap around.
   A taken jump leaves less gas than the chunk was entered with.
   */
  lemma ChunkEntryAgrees<W(!new)>(env: Env<W>, code: seq<byte>, f: Frame<W>)
    requires ValidEnv(env) && ValidFrame(f) && f.pc < |code| <= MAX_CODE_SIZE
    requires f.gas >= ChunkCost(code, env.table, f.pc)
    ensures var paid := f.(gas := f.gas - ChunkCost(code, env.table, f.pc));
            && Agrees(env, code, PerOpcodeRun(env, code, f), RunChunk(env, code, paid))
            && LeavesChunk(code, f.pc, paid.gas, RunChunk(env, code, paid))
            && (RunChunk(env, code, paid).Jumped? ==> paid.gas < f.gas)
  {
    hide PerOpcodeRun, RunChunk, ChunkSum;
    var cost := ChunkCost(code, env.table, f.pc);
    var paid := f.(gas := f.gas - cost);
    if ChunkDefined(env, code, f.pc) {
      ChunkSumBounds(env, code, f.pc);
      SmallMod(ChunkSum(code, env.table, f.pc), TWO64);
      assert Richer(paid, cost) == f;
      RunChunkAgrees(env, code, paid);
      if RunChunk(env, code, paid).Jumped? {
        JumpChunkCosts(env, code, paid);
      }
    } else {
      UndefinedChunkFailsSlow(env, code, f);
      UndefinedChunkFailsFast(env, code, paid);
    }
  }

  /** A chunk left by a jump contains that jump, so its cost is positive. */
  lemma {:induction false} JumpChunkCosts<W(!new)>(env: Env<W>, code: seq<byte>, f: Frame<W>)
    requires ValidEnv(env) && ValidFrame(f) && f.pc < |code| && ChunkDefined(env, code, f.pc)
    requires RunChunk(env, code, f).Jumped?
    ensures ChunkSum(code, env.table, f.pc) > 0
    decreases |code| - f.pc
  {
    hide Handle;
    HandleKeepsFrame(env, code, f);
    if !ChunkStopsAfter(code, f.pc) {
      HandleShiftsGas(env, code, f, 0);
      JumpChunkCosts(env, code, Handle(env, code, f).frame);
    }
  }

  /** The arrays of the bytecode cache, indexed by program counter. */
  datatype Cache = Cache(jumpDest: seq<bool>, pushValue: seq<word>, gasChunkEnd: seq<nat>, gasChunkCost: seq<nat>)

  /** The cache describes this code: its jump targets, its immediates, and its chunks at their starts only. */
  predicate CacheFor(code: seq<byte>, table: CostTable, c: Cache) {
    && |c.jumpDest| == |c.pushValue| == |c.gasChunkEnd| == |c.gasChunkCost| == |code| <= MAX_CODE_SIZE
    && (forall p :: 0 <= p < |code| ==> c.jumpDest[p] == ValidJumpDest(code, p))
    && (forall p :: 0 <= p < |code| ==>
          c.pushValue[p] == if Follows(code, 0, p) then PushImmediate(code, p) else 0)
    && (forall p :: 0 <= p < |code| ==> ChunkEntry(code, table, p, c.gasChunkEnd[p], c.gasChunkCost[p]))
  }

  /** The cache entry of one program counter: the chunk's end and cost at a chunk start, zero elsewhere. */
  predicate ChunkEntry(code: seq<byte>, table: CostTable, p: nat, end: nat, cost: nat)
    requires p < |code|
  {
    if IsChunkStart(code, p) then end == ChunkEnd(code, p) && cost == ChunkCost(code, table, p)
    else end == 0 && cost == 0
  }

  /**
   A jump target resolved from the block's last PUSH is the one execution takes: running
   the PUSH and then the jump from any frame either fails, falls through a false JUMPI, or
   lands on the resolved target, which starts a chunk.
   */
  lemma ResolvedJumpIsTaken<W(!new)>(env: Env<W>, code: seq<byte>, cache: Cache, b: GasBlock, f: Frame<W>)
    requires ValidEnv(env) && CacheFor(code, env.table, cache) && DescribesChunk(code, env.table, b)
    requires ResolveConstantJumpTarget(cache.jumpDest, cache.pushValue, b).Some?
    requires ValidFrame(f) && f.pc == b.prevPc
    ensures var target := ResolveConstantJumpTarget(cache.jumpDest, cache.pushValue, b).value;
            var pushed := Handle(env, code, f);
            && ValidJumpDest(code, target) && IsChunkStart(code, target)
            && (pushed.Continue? || pushed == Fail(StackOverflow))
            && (pushed.Continue? ==>
                  && ValidFrame(pushed.frame) && pushed.frame.pc == b.lastPc
                  && var jumped := Handle(env, code, pushed.frame);
                     && (jumped.Jumped? ==> jumped.frame.pc == target)
                     && (b.lastOpcode == OP_JUMP ==> jumped == Jumped(f.(pc := target)))
                     && (b.lastOpcode == OP_JUMPI && |f.stack| >= 1 ==>
                           jumped == if Peek(f.stack, 1) == 0 then Continue(f.(pc := b.end, stack := Drop(f.stack, 1)))
                                     else Jumped(f.(pc := target, stack := Drop(f.stack, 1)))))
  {
    hide Handle, PushImmediate, ChunkEnd, ChunkCost, ChunkEntry;
    var target := ResolveConstantJumpTarget(cache.jumpDest, cache.pushValue, b).value;
    FollowsTransitive(code, 0, b.start, b.prevPc);
    assert cache.pushValue[b.prevPc] == PushImmediate(code, b.prevPc) == target;
    PushedFrame(env, code, f);
    HandleKeepsFrame(env, code, f);
    var pushed := Handle(env, code, f);
    if pushed.Continue? {
      FrameLaws.JumpGoes(env, code, pushed.frame);
      hide ValidEnv;
      assert Handle(env, code, pushed.frame).Jumped? ==>
          Handle(env, code, pushed.frame).frame.stack == f.stack[..|f.stack| + 1 - if b.lastOpcode == OP_JUMP then 1 else 2];
      assert f.stack[..|f.stack|] == f.stack;
      assert Handle(env, code, pushed.frame).Continue? ==> Handle(env, code, pushed.frame).frame.stack == Drop(f.stack, 1);
    }
  }

  lemma PushedFrame<W(!new)>(env: Env<W>, code: seq<byte>, f: Frame<W>)
    requires ValidFrame(f) && f.pc < |code| && IsPush(code[f.pc])
    ensures PushImmediate(code, f.pc) < TWO256
    ensures var v := PushImmediate(code, f.pc);
            Handle(env, code, f) ==
            if |f.stack| == MAXSTACK then Fail(StackOverflow)
            else Continue(f.(pc := Next(code, f.pc), stack := f.stack + [v]))
  {
    hide MLoad, MStore, Return, RunPlain, RunSensitive;
    LoadPushValueCorrect(code, f.pc, code[f.pc] - OP_PUSH1 + 1);
  }

  /** How a handler leaves the dispatch loop. */
  datatype Signal =
    | Advance
    | Branch
    | Halt(output: seq<byte>)
    | Revert(output: seq<byte>)
    | Failure(error: Error)

  /** Signal and frame together are the step `r`; a failure leaves the frame unspecified. */
  predicate Matches<W(==)>(sig: Signal, f: Frame<W>, r: Step<W>) {
    match r
    case Continue(f') => sig.Advance? && f == f'
    case Jumped(f') => sig.Branch? && f == f'
    case Stop(f', output) => sig == Halt(output) && f == f'
    case Reverted(f', output) => sig == Revert(output) && f == f'
    case Fail(_) => sig.Failure?
  }

  lemma ExpandedIgnoresStack<W>(f: Frame<W>, stack: seq<word>, offset: word, size: word)
    requires ValidFrame(f) && |stack| <= MAXSTACK
    ensures Expanded(f.(stack := stack), offset, size) == Expanded(f, offset, size)
  {
  }

  /** One interpreter frame: a fixed stack array with a stack pointer, growing memory, and the gas left. */
  class EVMFrame<W(!new)> {
    var pc: nat
    var sp: nat
    const stack: array<word>
    var memory: seq<byte>
    var gas: nat
    var world: W

    predicate Valid()
      reads this, stack
    {
      stack.Length == MAXSTACK && sp <= MAXSTACK && WellSized(memory)
    }

    function State(): (f: Frame<W>)
      reads this, stack
      requires Valid()
      ensures ValidFrame(f)
    {
      Frame(pc, stack[..sp], memory, gas, world)
    }

    constructor (gas: nat, world: W)
      ensures Valid() && fresh(stack)
      ensures State() == Frame(0, [], [], gas, world)
    {
      stack := new word[MAXSTACK](_ => 0);
      pc, sp, memory, this.gas, this.world := 0, 0, [], gas, world;
    }

    method ExecutePush(value: word, len: nat) returns (sig: Signal)
      requires Valid()
      modifies this, stack
      ensures Valid() && Matches(sig, State(), Pushed(old(State()), value, len))
    {
      if sp >= MAXSTACK {
        return Failure(StackOverflow);
      }
      stack[sp] := value;
      sp := sp + 1;
      pc := pc + len;
      return Advance;
    }

    method ExecuteDup(n: nat) returns (sig: Signal)
      requires Valid() && 1 <= n
      modifies this, stack
      ensures Valid() && Matches(sig, State(), Duplicated(old(State()), n))
    {
      if sp < n {
        return Failure(StackUnderflow);
      }
      if sp >= MAXSTACK {
        return Failure(StackOverflow);
      }
      stack[sp] := stack[sp - n];
      sp := sp + 1;
      pc := pc + 1;
      return Advance;
    }

    method ExecuteSwap(n: nat) returns (sig: Signal)
      requires Valid() && 1 <= n
      modifies this, stack
      ensures Valid() && Matches(sig, State(), Swapped(old(State()), n))
    {
      if sp < n + 1 {
        return Failure(StackUnderflow);
      }
      var top, nth := sp - 1, sp - 1 - n;
      var tmp := stack[top];
      stack[top] := stack[nth];
      stack[nth] := tmp;
      pc := pc + 1;
      return Advance;
    }

    /** Replace the two top words by `value`. */
    method ExecuteBinary(value: word)
      requires Valid() && 2 <= sp
      modifies this, stack
      ensures Valid() && Continue(State()) == Binary(old(State()), value)
    {
      stack[sp - 2] := value;
      sp := sp - 1;
      pc := pc + 1;
    }

    /** Charge for and perform a memory expansion; `false` is out of gas and changes nothing. */
    method CheckMemoryExpandAndChargeGas(offset: word, size: word) returns (ok: bool)
      requires Valid()
      modifies this`memory, this`gas
      ensures Valid()
      ensures match Expanded(old(State()), offset, size)
              case Some(m) => ok && memory == m.bytes && gas == m.gas
              case None => !ok && memory == old(memory) && gas == old(gas)
    {
      if size == 0 {
        return true;
      }
      if size > TWO64 - 1 || offset > TWO64 - 1 || offset > TWO64 - 1 - size {
        return false;
      }
      CheckExpandExact(Memory(memory, gas), Access(offset, size));
      ok := ExpandMemoryAndChargeGas(offset + size);
    }

    method ExpandMemoryAndChargeGas(required: nat) returns (ok: bool)
      requires Valid()
      modifies this`memory, this`gas
      ensures Valid()
      ensures match ExpandAndCharge(old(Memory(memory, gas)), required)
              case Some(m) => ok && memory == m.bytes && gas == m.gas
              case None => !ok && memory == old(memory) && gas == old(gas)
    {
      if required > MAX_REQUIRED_MEMORY_SIZE {
        return false;
      }
      ExpandExact(Memory(memory, gas), required);
      AlignWithinLimit(required);
      var currentSize, size := |memory|, Align32(required);
      var cost := CalculateMemoryExpansionCost(currentSize, size);
      if gas < cost {
        return false;
      }
      gas := gas - cost;
      if size > currentSize {
        memory := memory + Zeros(size - currentSize);
      }
      return true;
    }

    method ExecuteMLoad() returns (sig: Signal)
      requires Valid()
      modifies this, stack
      ensures Valid() && Matches(sig, State(), MLoad(old(State())))
    {
      hide CheckExpand, Expanded, BigEndian;
      if sp < 1 {
        return Failure(StackUnderflow);
      }
      var offset := stack[sp - 1];
      var ok := CheckMemoryExpandAndChargeGas(offset, 32);
      if !ok {
        return Failure(OutOfGas);
      }
      var bytes := memory[offset..offset + 32];
      PushFitsWord(bytes);
      stack[sp - 1] := BigEndian(bytes);
      pc := pc + 1;
      return Advance;
    }

    method ExecuteMStore(width: nat) returns (sig: Signal)
      requires Valid() && (width == 32 || width == 1)
      modifies this, stack
      ensures Valid() && Matches(sig, State(), MStore(old(State()), width))
    {
      hide CheckExpand, Written, Expanded;
      if sp < 2 {
        return Failure(StackUnderflow);
      }
      var offset, value := stack[sp - 1], stack[sp - 2];
      ghost var before := State();
      sp := sp - 2;
      ExpandedIgnoresStack(before, State().stack, offset, width);
      var ok := CheckMemoryExpandAndChargeGas(offset, width);
      if !ok {
        return Failure(OutOfGas);
      }
      memory := Written(memory, offset, value, width);
      pc := pc + 1;
      return Advance;
    }

    method ExecuteReturn(revert: bool) returns (sig: Signal)
      requires Valid()
      modifies this, stack
      ensures Valid() && Matches(sig, State(), Return(old(State()), revert))
    {
      if sp < 2 {
        return Failure(StackUnderflow);
      }
      var offset, size := stack[sp - 1], stack[sp - 2];
      sp := sp - 2;
      var ok := CheckMemoryExpandAndChargeGas(offset, size);
      if !ok {
        return Failure(OutOfGas);
      }
      var output := Slice(memory, offset, size);
      return if revert then Revert(output) else Halt(output);
    }

    /** Take a jump to `dest` with `drop` words popped. */
    method ExecuteJump(code: seq<byte>, jumpDest: seq<bool>, drop: nat) returns (sig: Signal)
      requires Valid() && 1 <= drop <= sp
      requires |jumpDest| == |code| && forall p :: 0 <= p < |code| ==> jumpDest[p] == ValidJumpDest(code, p)
      modifies this, stack
      ensures Valid()
      ensures Matches(sig, State(),
                JumpTo(code, old(State()), Peek(old(State()).stack, 1), Drop(old(State()).stack, drop)))
    {
      var dest := stack[sp - 1];
      sp := sp - drop;
      if dest >= |code| || !jumpDest[dest] {
        return Failure(BadJumpDestination);
      }
      pc := dest;
      return Branch;
    }

    /** Overwrite the used part of the stack. */
    method StoreStack(words: seq<word>)
      requires stack.Length == MAXSTACK && |words| <= MAXSTACK
      modifies this`sp, stack
      ensures sp == |words| && stack[..sp] == words
    {
      forall i | 0 <= i < |words| {
        stack[i] := words[i];
      }
      sp := |words|;
    }
 
    method ExecutePlain(env: Env<W>, op: byte) returns (sig: Signal)
      requires Valid() && PlainKeepsFrame(env)
      modifies this, stack
      ensures Valid() && Matches(sig, State(), RunPlain(env, op, old(State())))
    {
      var r := env.plain(op, stack[..sp], memory, world);
      if r.PlainFail? {
        return Failure(r.error);
      }
      if gas < r.dynamicGas {
        return Failure(OutOfGas);
      }
      gas := gas - r.dynamicGas;
      StoreStack(r.stack);
      memory, world := r.memory, r.world;
      pc := pc + 1;
      return Advance;
    }

    method ExecuteSensitive(env: Env<W>, op: byte) returns (sig: Signal)
      requires Valid() && SensitiveKeepsFrame(env)
      modifies this, stack
      ensures Valid() && Matches(sig, State(), RunSensitive(env, op, old(State())))
    {
      var r := env.sensitive(op, stack[..sp], memory, world, gas);
      match r
      case SensitiveFail(e) =>
        return Failure(e);
      case SensitiveStop(g, w) =>
        gas, world := g, w;
        return Halt([]);
      case SensitiveOk(g, st, mem, w) =>
        StoreStack(st);
        memory, gas, world := mem, g, w;
        pc := pc + 1;
        return Advance;
    }

    /** Pop `n` words. */
    method Discard(n: nat)
      requires Valid() && n <= sp
      modifies this`sp, this`pc
      ensures Valid() && State() == old(State()).(stack := Drop(old(State()).stack, n), pc := old(pc) + 1)
    {
      sp := sp - n;
      pc := pc + 1;
    }

    method ReplaceTop(v: word)
      requires Valid() && 1 <= sp
      modifies this`pc, stack
      ensures Valid() && State() == old(State()).(stack := Drop(old(State()).stack, 1) + [v], pc := old(pc) + 1)
    {
      stack[sp - 1] := v;
      pc := pc + 1;
    }

    /** The handler of the opcode at `pc`, static gas already paid. */
    method DoExecute(env: Env<W>, code: seq<byte>, cache: Cache) returns (sig: Signal)
      requires Valid() && ValidEnv(env) && CacheFor(code, env.table, cache)
      requires pc < |code| && Follows(code, 0, pc)
      modifies this, stack
      ensures Valid() && Matches(sig, State(), Handle(env, code, old(State())))
    {
      hide MLoad, MStore, Return, RunPlain, RunSensitive, Duplicated, Swapped, JumpTo, Pushed, Binary;
      hide PushImmediate, Follows, PlainKeepsFrame, SensitiveKeepsFrame;
      var op := code[pc];
      if op == OP_STOP {
        sig := Halt([]);
      } else if op == OP_ADD || op == OP_SUB {
        if sp < 2 {
          return Failure(StackUnderflow);
        }
        var a, b := stack[sp - 1], stack[sp - 2];
        ExecuteBinary(if op == OP_ADD then (a + b) % TWO256 else (a - b) % TWO256);
        sig := Advance;
      } else if op == OP_CALLDATALOAD {
        if sp < 1 {
          return Failure(StackUnderflow);
        }
        ReplaceTop(env.callData(stack[sp - 1]));
        sig := Advance;
      } else if op == OP_POP {
        if sp < 1 {
          return Failure(StackUnderflow);
        }
        Discard(1);
        sig := Advance;
      } else if op == OP_MLOAD {
        sig := ExecuteMLoad();
      } else if op == OP_MSTORE {
        sig := ExecuteMStore(32);
      } else if op == OP_MSTORE8 {
        sig := ExecuteMStore(1);
      } else if op == OP_JUMP {
        if sp < 1 {
          return Failure(StackUnderflow);
        }
        sig := ExecuteJump(code, cache.jumpDest, 1);
      } else if op == OP_JUMPI {
        if sp < 2 {
          return Failure(StackUnderflow);
        }
        if stack[sp - 2] == 0 {
          Discard(2);
          sig := Advance;
        } else {
          sig := ExecuteJump(code, cache.jumpDest, 2);
        }
      } else {
        sig := DoExecuteRest(env, code, cache);
      }
    }

    method DoExecuteRest(env: Env<W>, code: seq<byte>, cache: Cache) returns (sig: Signal)
      requires Valid() && ValidEnv(env) && CacheFor(code, env.table, cache)
      requires pc < |code| && Follows(code, 0, pc)
      requires code[pc] !in {OP_STOP, OP_ADD, OP_SUB, OP_CALLDATALOAD, OP_POP, OP_MLOAD, OP_MSTORE, OP_MSTORE8, OP_JUMP, OP_JUMPI}
      modifies this, stack
      ensures Valid() && Matches(sig, State(), Handle(env, code, old(State())))
    {
      hide MLoad, MStore, Return, RunPlain, RunSensitive, Duplicated, Swapped, JumpTo, Pushed, Binary;
      hide PushImmediate, Follows, PlainKeepsFrame, SensitiveKeepsFrame;
      var op := code[pc];
      if op == OP_PC {
        sig := ExecutePush(pc % TWO256, 1);
      } else if op == OP_MSIZE {
        sig := ExecutePush(|memory|, 1);
      } else if op == OP_GAS {
        sig := ExecutePush(gas % TWO256, 1);
      } else if op == OP_JUMPDEST {
        pc := pc + 1;
        sig := Advance;
      } else if op == OP_PUSH0 {
        sig := ExecutePush(0, 1);
      } else if IsPush(op) {
        sig := ExecutePush(cache.pushValue[pc], OpcodeLen(op));
      } else if OP_DUP1 <= op <= OP_DUP16 {
        sig := ExecuteDup(op - OP_DUP1 + 1);
      } else if OP_SWAP1 <= op <= OP_SWAP16 {
        sig := ExecuteSwap(op - OP_SWAP1 + 1);
      } else if op == OP_RETURN {
        sig := ExecuteReturn(false);
      } else if op == OP_REVERT {
        sig := ExecuteReturn(true);
      } else if op == OP_INVALID {
        sig := Failure(InvalidInstruction);
      } else if IsSensitive(op) {
        sig := ExecuteSensitive(env, op);
      } else {
        sig := ExecutePlain(env, op);
      }
    }

    /** The fast path: run the chunk that ends at `chunkEnd` without charging. */
    method RunPrepaidChunk(env: Env<W>, code: seq<byte>, cache: Cache, chunkEnd: nat) returns (sig: Signal)
      requires Valid() && ValidEnv(env) && CacheFor(code, env.table, cache)
      requires pc < |code| && Follows(code, 0, pc) && chunkEnd == ChunkEnd(code, pc)
      modifies this, stack
      ensures Valid() && Matches(sig, State(), RunChunk(env, code, old(State())))
    {
      hide Handle;
      ghost var whole := RunChunk(env, code, State());
      while true
        invariant Valid() && pc < |code| && Follows(code, 0, pc) && chunkEnd == ChunkEnd(code, pc)
        invariant RunChunk(env, code, State()) == whole
        decreases |code| - pc
      {
        if !env.defined[code[pc]] {
          return Failure(UndefinedInstruction);
        }
        ghost var before := State();
        HandleKeepsFrame(env, code, before);
        FollowsNext(code, 0, pc);
        sig := DoExecute(env, code, cache);
        if !sig.Advance? {
          return;
        }
        ChunkEndAfter(code, before.pc);
        if pc >= chunkEnd {
          return;
        }
      }
    }

    /** What a signal says about the rest of the per-opcode run from `before`. */
    ghost predicate Reaches(env: Env<W>, code: seq<byte>, sig: Signal, before: Frame<W>)
      requires Valid() && ValidEnv(env) && ValidFrame(before)
      reads this, stack
    {
      var run := PerOpcodeRun(env, code, before);
      match sig
      case Advance | Branch =>
        && PerOpcodeRun(env, code, State()) == run && Follows(code, 0, pc)
        && (gas < before.gas || (gas == before.gas && pc > before.pc))
      case Halt(output) => Corresponds(Finished(State(), false, output), run)
      case Revert(output) => Corresponds(Finished(State(), true, output), run)
      case Failure(_) => run.Exceptional?
    }

    /**
     One turn of the loop. At a chunk start whose cost the gas covers, the chunk is prepaid
     and run without charges; otherwise one opcode is charged and executed.
     */
    method Dispatch(env: Env<W>, code: seq<byte>, cache: Cache) returns (sig: Signal)
      requires Valid() && ValidEnv(env) && CacheFor(code, env.table, cache)
      requires pc < |code| && Follows(code, 0, pc)
      modifies this, stack
      ensures Valid() && ValidFrame(old(State())) && Reaches(env, code, sig, old(State()))
    {
      hide Handle, RunChunk, ChunkEnd, ChunkSum, WellSized, Follows;
      hide PlainKeepsFrame, SensitiveKeepsFrame, PushImmediate;
      ghost var before := State();
      if cache.gasChunkEnd[pc] > pc && gas >= cache.gasChunkCost[pc] {
        var chunkEnd := cache.gasChunkEnd[pc];
        assert ChunkEntry(code, env.table, pc, chunkEnd, cache.gasChunkCost[pc]);
        ChunkEntryAgrees(env, code, before);
        ChunkEndFollows(code, pc);
        FollowsTransitive(code, 0, pc, chunkEnd);
        gas := gas - cache.gasChunkCost[pc];
        sig := RunPrepaidChunk(env, code, cache, chunkEnd);
      } else {
        ChargedStepProgresses(env, code, before);
        FollowsNext(code, 0, pc);
        sig := ChargeAndExecute(env, code, cache);
      }
    }

    /** The dispatch loop. */
    method Interpret(env: Env<W>, code: seq<byte>, cache: Cache) returns (outcome: Outcome<W>)
      requires Valid() && ValidEnv(env) && CacheFor(code, env.table, cache)
      requires Follows(code, 0, pc)
      modifies this, stack
      ensures Corresponds(outcome, PerOpcodeRun(env, code, old(State())))
      ensures outcome.Exceptional? ==> gas == 0
    {
      hide Follows, PlainKeepsFrame, SensitiveKeepsFrame, CacheFor, ChargedStep;
      ghost var reference := PerOpcodeRun(env, code, State());
      while pc < |code|
        invariant Valid() && Follows(code, 0, pc)
        invariant PerOpcodeRun(env, code, State()) == reference
        decreases gas, |code| - pc
      {
        var sig := Dispatch(env, code, cache);
        match sig
        case Advance =>
        case Branch =>
        case Halt(output) =>
          return Finished(State(), false, output);
        case Revert(output) =>
          return Finished(State(), true, output);
        case Failure(e) =>
          gas := 0;
          return Exceptional(e);
      }
      outcome := Finished(State(), false, []);
    }

    /** The slow path: charge the opcode at `pc`, then execute it. */
    method ChargeAndExecute(env: Env<W>, code: seq<byte>, cache: Cache) returns (sig: Signal)
      requires Valid() && ValidEnv(env) && CacheFor(code, env.table, cache)
      requires pc < |code| && Follows(code, 0, pc)
      modifies this, stack
      ensures Valid() && Matches(sig, State(), ChargedStep(env, code, old(State())))
    {
      hide Handle;
      var op := code[pc];
      if !env.defined[op] {
        return Failure(UndefinedInstruction);
      }
      if op == OP_STOP {
        return Halt([]);
      }
      if op == OP_INVALID {
        return Failure(InvalidInstruction);
      }
      if gas < env.table[op] {
        return Failure(OutOfGas);
      }
      gas := gas - env.table[op];
      sig := DoExecute(env, code, cache);
    }
  }

  /** One step inside a chunk stays in it, or reaches its end exactly when it was the last. */
  lemma ChunkEndAfter(code: seq<byte>, p: nat)
    requires p < |code|
    ensures ChunkStopsAfter(code, p) <==> Next(code, p) >= ChunkEnd(code, p)
    ensures !ChunkStopsAfter(code, p) ==> Next(code, p) < |code| && ChunkEnd(code, Next(code, p)) == ChunkEnd(code, p)
  {
  }
}
