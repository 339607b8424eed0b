/**
 The compiler's memory prechecks: a block whose memory accesses have known addresses is
 given one expansion to the largest of them instead of one at each access.

 `Scan` is the abstract interpretation the analyser performs: a stack of constants for the
 values pushed inside the block, and the list of accesses in order. The theorems compare
 executing the block as it is with executing it after a single expansion.
 */
module Prechecks {
  import opened Basics
  import opened Bytecode
  import opened PushDecoding
  import opened MemoryGas
  import opened Semantics

  datatype Const = Unknown | Known(value: word)

  datatype Plan = Plan(eligible: bool, maxRequiredSize: nat, coveredDirectOps: nat)

  predicate IsBlockTerminator(op: int) {
    op in {OP_JUMP, OP_JUMPI, OP_RETURN, OP_STOP, OP_INVALID, OP_REVERT, OP_SELFDESTRUCT}
  }

  /** The compiler's blocks end where the cache says that control ends, and at JUMPI. */
  lemma TerminatorsAgree(op: byte)
    ensures IsBlockTerminator(op) <==> IsControlFlowTerminator(op) || op == OP_JUMPI
    ensures IsBlockTerminator(op) ==> IsGasChunkTerminator(op)
  {
  }

  predicate IsDirect(op: int) {
    op == OP_MLOAD || op == OP_MSTORE || op == OP_MSTORE8
  }

  /** Where a block ends: at the end of the code, at a later JUMPDEST, or at a terminator. */
  predicate AtBlockEnd(code: seq<byte>, entry: nat, pc: nat) {
    pc >= |code| || (pc != entry && code[pc] == OP_JUMPDEST) || IsBlockTerminator(code[pc])
  }

  datatype AbsResult = Reject | Accept(stack: seq<Const>, access: Option<Access>)

  /** A sum or difference is known only if it needs no wrap-around in 64 bits. */
  function AddConst(a: Const, b: Const): (r: Const) {
    if a.Known? && b.Known? && a.value + b.value < TWO64 then Known(a.value + b.value) else Unknown
  }

  function SubConst(a: Const, b: Const): (r: Const) {
    if a.Known? && b.Known? && a.value >= b.value then Known(a.value - b.value) else Unknown
  }

  function Top(s: seq<Const>, k: nat): (c: Const)
    requires 1 <= k <= |s|
  {
    s[|s| - k]
  }

  function Below(s: seq<Const>, k: nat): (r: seq<Const>)
    requires k <= |s|
  {
    s[..|s| - k]
  }

  /** The abstract access of a direct memory opcode with `pops` operands. */
  function AbsAccess(s: seq<Const>, pops: nat, width: nat, pushes: seq<Const>): (r: AbsResult)
    requires 1 <= pops && (width == 32 || width == 1)
  {
    if |s| < pops || Top(s, 1).Unknown? || Top(s, 1).value + width >= TWO64 then Reject
    else Accept(Below(s, pops) + pushes, Some(Access(Top(s, 1).value, width)))
  }

  /** The abstract effect of one instruction inside a block. */
  function AbsStep(code: seq<byte>, pc: nat, s: seq<Const>): (r: AbsResult)
    requires pc < |code|
  {
    var op := code[pc];
    if op == OP_JUMPDEST then Accept(s, None)
    else if op == OP_PUSH0 then Accept(s + [Known(0)], None)
    else if IsPush(op) then
      var n := op - OP_PUSH0;
      if n <= 8 then
        if pc + 1 + n > |code| then Reject
        else
          PushFitsWord(code[pc + 1..pc + 1 + n]);
          Accept(s + [Known(BigEndian(code[pc + 1..pc + 1 + n]))], None)
      else if n > |code| - pc then Reject
      else Accept(s + [Unknown], None)
    else if OP_DUP1 <= op <= OP_DUP16 then
      var n := op - OP_DUP1 + 1;
      if |s| < n then Reject else Accept(s + [Top(s, n)], None)
    else if OP_SWAP1 <= op <= OP_SWAP16 then
      var n := op - OP_SWAP1 + 1;
      if |s| <= n then Reject
      else Accept(s[|s| - 1 := s[|s| - 1 - n]][|s| - 1 - n := s[|s| - 1]], None)
    else if op == OP_POP then
      if |s| < 1 then Reject else Accept(Below(s, 1), None)
    else if op == OP_ADD then
      if |s| < 2 then Reject else Accept(Below(s, 2) + [AddConst(Top(s, 1), Top(s, 2))], None)
    else if op == OP_SUB then
      if |s| < 2 then Reject else Accept(Below(s, 2) + [SubConst(Top(s, 1), Top(s, 2))], None)
    else if op == OP_MLOAD then AbsAccess(s, 1, 32, [Unknown])
    else if op == OP_MSTORE then AbsAccess(s, 2, 32, [])
    else if op == OP_MSTORE8 then AbsAccess(s, 2, 1, [])
    else if op == OP_MSIZE then Accept(s + [Unknown], None)
    else Reject
  }

  function Opt(a: Option<Access>): (s: seq<Access>) {
    if a.Some? then [a.value] else []
  }

  /** The accesses of the block from `pc` on, or `None` if the block is not understood. */
  function Scan(code: seq<byte>, entry: nat, pc: nat, s: seq<Const>): (r: Option<seq<Access>>)
    decreases if pc < |code| then |code| - pc else 0
  {
    if AtBlockEnd(code, entry, pc) then Some([])
    else
      match AbsStep(code, pc, s)
      case Reject => None
      case Accept(s', a) =>
        match Scan(code, entry, Next(code, pc), s')
        case None => None
        case Some(rest) => Some(Opt(a) + rest)
  }

  lemma {:induction false} MaxNeedAppend(accesses: seq<Access>, a: Access)
    ensures MaxNeed(accesses + [a]) == Max(MaxNeed(accesses), Needs(a))
  {
    if accesses == [] {
      assert [a][1..] == [] && accesses + [a] == [a];
    } else {
      assert (accesses + [a])[1..] == accesses[1..] + [a];
      MaxNeedAppend(accesses[1..], a);
    }
  }

  /** The 64-bit reading of a PUSH immediate of at most eight bytes; `None` if it is cut off. */
  method ParsePushConstU64(code: seq<byte>, immediatePc: nat, numBytes: nat) returns (value: Option<nat>)
    requires numBytes <= 8
    ensures value == if immediatePc + numBytes > |code| then None else Some(BigEndian(code[immediatePc..immediatePc + numBytes]))
  {
    if immediatePc + numBytes > |code| {
      return None;
    }
    var v: nat := 0;
    var i := 0;
    while i < numBytes
      invariant 0 <= i <= numBytes && v == BigEndian(code[immediatePc..immediatePc + i])
    {
      ghost var s := code[immediatePc..immediatePc + i + 1];
      assert s[..|s| - 1] == code[immediatePc..immediatePc + i];
      v := v * 256 + code[immediatePc + i];
      i := i + 1;
    }
    return Some(v);
  }

  /**
   The analyser: one pass over the block. Its plan is the length and the largest need of
   the block's access list; the block is eligible if it is understood and has at least two.
   */
  method AnalyzeConstDirectMemoryBlockPrecheck(code: seq<byte>, entry: nat) returns (plan: Plan)
    ensures match Scan(code, entry, entry, [])
            case None => plan == Plan(false, 0, 0)
            case Some(accesses) => plan == Plan(|accesses| >= 2, MaxNeed(accesses), |accesses|)
  {
    hide AbsStep, Needs;
    plan := Plan(false, 0, 0);
    var simStack: seq<Const> := [];
    ghost var done: seq<Access> := [];
    ghost var whole := Scan(code, entry, entry, []);
    PrefixedEmpty(whole);
    var pc := entry;
    while !AtBlockEnd(code, entry, pc)
      invariant plan == Plan(false, MaxNeed(done), |done|)
      invariant whole == Prefixed(done, Scan(code, entry, pc, simStack))
      decreases if pc < |code| then |code| - pc else 0
    {
      match AbsStep(code, pc, simStack) {
        case Reject =>
          return Plan(false, 0, 0);
        case Accept(s', a) =>
          PrefixedMore(done, a, Scan(code, entry, Next(code, pc), s'));
          if a.Some? {
            MaxNeedAppend(done, a.value);
            done := done + [a.value];
            plan := plan.(maxRequiredSize := Max(plan.maxRequiredSize, Needs(a.value)),
                          coveredDirectOps := plan.coveredDirectOps + 1);
          }
          simStack := s';
          pc := Next(code, pc);
      }
    }
    assert done + [] == done;
    plan := plan.(eligible := plan.coveredDirectOps >= 2);
  }

  /** The accesses `done` followed by the outcome of scanning the rest. */
  function Prefixed(done: seq<Access>, rest: Option<seq<Access>>): (r: Option<seq<Access>>) {
    if rest.None? then None else Some(done + rest.value)
  }

  lemma PrefixedEmpty(r: Option<seq<Access>>)
    ensures Prefixed([], r) == r
  {
    if r.Some? {
      assert [] + r.value == r.value;
    }
  }

  lemma PrefixedMore(done: seq<Access>, a: Option<Access>, rest: Option<seq<Access>>)
    ensures Prefixed(done, if rest.None? then None else Some(Opt(a) + rest.value))
            == Prefixed(if a.Some? then done + [a.value] else done, rest)
  {
    if rest.Some? {
      assert done + (Opt(a) + rest.value) == (done + Opt(a)) + rest.value;
      assert done + Opt(None) == done;
    }
  }

  /** The abstract stack describes the top of the real one. */
  ghost predicate Covers(s: seq<Const>, stack: seq<word>) {
    |s| <= |stack| && forall k: nat :: 1 <= k <= |s| && Top(s, k).Known? ==> Peek(stack, k) == Top(s, k).value
  }

  lemma CoversPush(s: seq<Const>, stack: seq<word>, c: Const, v: word)
    requires Covers(s, stack) && (c.Known? ==> v == c.value)
    ensures Covers(s + [c], stack + [v])
  {
    forall k: nat | 1 <= k <= |s| + 1 && Top(s + [c], k).Known?
      ensures Peek(stack + [v], k) == Top(s + [c], k).value
    {
      if k > 1 {
        assert Top(s + [c], k) == Top(s, k - 1) && Peek(stack + [v], k) == Peek(stack, k - 1);
      }
    }
  }

  lemma CoversDrop(s: seq<Const>, stack: seq<word>, n: nat)
    requires Covers(s, stack) && n <= |s|
    ensures Covers(Below(s, n), Drop(stack, n))
  {
    forall k: nat | 1 <= k <= |s| - n && Top(Below(s, n), k).Known?
      ensures Peek(Drop(stack, n), k) == Top(Below(s, n), k).value
    {
      assert Top(Below(s, n), k) == Top(s, k + n) && Peek(Drop(stack, n), k) == Peek(stack, k + n);
    }
  }

  lemma CoversSwap(s: seq<Const>, stack: seq<word>, n: nat)
    requires Covers(s, stack) && n < |s| && 1 <= n
    ensures Covers(s[|s| - 1 := s[|s| - 1 - n]][|s| - 1 - n := s[|s| - 1]],
                   stack[|stack| - 1 := stack[|stack| - 1 - n]][|stack| - 1 - n := stack[|stack| - 1]])
  {
    assert Top(s, 1) == s[|s| - 1] && Top(s, n + 1) == s[|s| - 1 - n];
    var s', stack' := s[|s| - 1 := s[|s| - 1 - n]][|s| - 1 - n := s[|s| - 1]],
                      stack[|stack| - 1 := stack[|stack| - 1 - n]][|stack| - 1 - n := stack[|stack| - 1]];
    forall k: nat | 1 <= k <= |s| && Top(s', k).Known?
      ensures Peek(stack', k) == Top(s', k).value
    {
      var j := if k == 1 then n + 1 else if k == n + 1 then 1 else k;
      assert Top(s', k) == Top(s, j) && Peek(stack', k) == Peek(stack, j);
    }
  }

  /** Instructions that touch neither memory nor gas. */
  ghost predicate StackOnly<W>(f: Frame<W>, r: Step<W>) {
    r.Continue? ==> r.frame.memory == f.memory && r.frame.gas == f.gas && r.frame.world == f.world
  }

  /** The abstract step describes the real one, for stack instructions. */
  lemma StackStepSound<W>(env: Env<W>, code: seq<byte>, f: Frame<W>, s: seq<Const>)
    requires f.pc < |code| && ValidFrame(f) && Covers(s, f.stack) && AbsStep(code, f.pc, s).Accept?
    requires !IsDirect(code[f.pc])
    ensures var r := Handle(env, code, f);
            && AbsStep(code, f.pc, s).access.None?
            && (r.Continue? || r == Fail(StackOverflow)) && StackOnly(f, r)
            && (r.Continue? ==>
                  ValidFrame(r.frame) && r.frame.pc == Next(code, f.pc)
                  && Covers(AbsStep(code, f.pc, s).stack, r.frame.stack))
  {
    hide Covers, MLoad, MStore, RunPlain, RunSensitive;
    assert |s| <= |f.stack| by { CoversLength(s, f.stack); }
    var op := code[f.pc];
    if op == OP_ADD || op == OP_SUB {
      CoversTop(s, f.stack, 1);
      CoversTop(s, f.stack, 2);
      CoversDrop(s, f.stack, 2);
      var a, b := Peek(f.stack, 1), Peek(f.stack, 2);
      if op == OP_ADD {
        if Top(s, 1).Known? && Top(s, 2).Known? && a + b < TWO64 {
          SmallMod(a + b, TWO256);
        }
        CoversPush(Below(s, 2), Drop(f.stack, 2), AddConst(Top(s, 1), Top(s, 2)), (a + b) % TWO256);
      } else {
        if Top(s, 1).Known? && Top(s, 2).Known? && a >= b {
          SmallMod(a - b, TWO256);
        }
        CoversPush(Below(s, 2), Drop(f.stack, 2), SubConst(Top(s, 1), Top(s, 2)), (a - b) % TWO256);
      }
    } else if op == OP_POP {
      CoversDrop(s, f.stack, 1);
    } else if op == OP_PUSH0 {
      CoversPush(s, f.stack, Known(0), 0);
    } else if op == OP_MSIZE {
      CoversPush(s, f.stack, Unknown, |f.memory|);
    } else if OP_DUP1 <= op <= OP_DUP16 {
      var n := op - OP_DUP1 + 1;
      CoversTop(s, f.stack, n);
      CoversPush(s, f.stack, Top(s, n), Peek(f.stack, n));
    } else if OP_SWAP1 <= op <= OP_SWAP16 {
      CoversSwap(s, f.stack, op - OP_SWAP1 + 1);
    } else if IsPush(op) {
      PushStepSound(code, f.pc, s, f.stack);
    }
  }

  lemma CoversLength(s: seq<Const>, stack: seq<word>)
    requires Covers(s, stack)
    ensures |s| <= |stack|
  {
  }

  lemma CoversTop(s: seq<Const>, stack: seq<word>, k: nat)
    requires Covers(s, stack) && 1 <= k <= |s|
    ensures |s| <= |stack| && (Top(s, k).Known? ==> Peek(stack, k) == Top(s, k).value)
  {
  }

  lemma PushStepSound(code: seq<byte>, pc: nat, s: seq<Const>, stack: seq<word>)
    requires pc < |code| && IsPush(code[pc]) && Covers(s, stack) && AbsStep(code, pc, s).Accept?
    ensures PushImmediate(code, pc) < TWO256
    ensures AbsStep(code, pc, s).access.None? && Covers(AbsStep(code, pc, s).stack, stack + [PushImmediate(code, pc)])
  {
    var n := code[pc] - OP_PUSH0;
    LoadPushValueCorrect(code, pc, n);
    if n <= 8 {
      var there := code[pc + 1..pc + 1 + n];
      assert ImmediateBytes(code, pc, n) == there;
      CoversPush(s, stack, Known(BigEndian(there)), PushImmediate(code, pc));
    } else {
      CoversPush(s, stack, Unknown, PushImmediate(code, pc));
    }
  }

  /** Execute the block instruction by instruction, each access expanding memory on its own. */
  ghost function RunBlock<W(!new)>(env: Env<W>, code: seq<byte>, entry: nat, f: Frame<W>): (r: Step<W>)
    requires ValidEnv(env) && ValidFrame(f)
    decreases if f.pc < |code| then |code| - f.pc else 0
  {
    if AtBlockEnd(code, entry, f.pc) then Continue(f)
    else
      HandleKeepsFrame(env, code, f);
      var r := Handle(env, code, f);
      if r.Continue? then RunBlock(env, code, entry, r.frame) else r
  }

  /** Execute the block with one expansion to `need` bytes before its first direct access. */
  ghost function RunPrechecked<W(!new)>(env: Env<W>, code: seq<byte>, entry: nat, need: nat, f: Frame<W>): (r: Step<W>)
    requires ValidEnv(env) && ValidFrame(f)
    decreases if f.pc < |code| then |code| - f.pc else 0
  {
    if AtBlockEnd(code, entry, f.pc) then Continue(f)
    else if IsDirect(code[f.pc]) then
      match ExpandAndCharge(Memory(f.memory, f.gas), need)
      case None => Fail(OutOfGas)
      case Some(m) =>
        ExpandExact(Memory(f.memory, f.gas), need);
        RunBlock(env, code, entry, f.(memory := m.bytes, gas := m.gas))
    else
      HandleKeepsFrame(env, code, f);
      var r := Handle(env, code, f);
      if r.Continue? then RunPrechecked(env, code, entry, need, r.frame) else r
  }

  /** The direct accesses an execution of the block makes, in order. */
  ghost function DirectAccesses<W(!new)>(env: Env<W>, code: seq<byte>, entry: nat, f: Frame<W>): (a: seq<Access>)
    requires ValidEnv(env) && ValidFrame(f)
    decreases if f.pc < |code| then |code| - f.pc else 0
  {
    if AtBlockEnd(code, entry, f.pc) then []
    else
      HandleKeepsFrame(env, code, f);
      var r := Handle(env, code, f);
      var here := if IsDirect(code[f.pc]) && |f.stack| >= 1
                  then [Access(Peek(f.stack, 1), if code[f.pc] == OP_MSTORE8 then 1 else 32)] else [];
      if r.Continue? then here + DirectAccesses(env, code, entry, r.frame) else here
  }

  /** A direct access at a known address: what it needs decides whether it goes through and what it costs. */
  lemma DirectStepSound<W>(env: Env<W>, code: seq<byte>, f: Frame<W>, s: seq<Const>)
    requires f.pc < |code| && ValidFrame(f) && Covers(s, f.stack) && AbsStep(code, f.pc, s).Accept?
    requires IsDirect(code[f.pc])
    ensures AbsStep(code, f.pc, s).access.Some? && |f.stack| >= 1
    ensures var a, r := AbsStep(code, f.pc, s).access.value, Handle(env, code, f);
            var m := CheckExpand(Memory(f.memory, f.gas), a.offset, a.size);
            && a == Access(Peek(f.stack, 1), if code[f.pc] == OP_MSTORE8 then 1 else 32)
            && (if m.None? then r == Fail(OutOfGas)
                else r.Continue? && |r.frame.memory| == |m.value.bytes| && r.frame.gas == m.value.gas
                     && WellSized(m.value.bytes) && ValidFrame(r.frame) && r.frame.pc == Next(code, f.pc)
                     && Covers(AbsStep(code, f.pc, s).stack, r.frame.stack))
  {
    CoversTop(s, f.stack, 1);
    var a := AbsStep(code, f.pc, s).access.value;
    CheckExpandExact(Memory(f.memory, f.gas), a);
    hide CheckExpand, Covers, Written, BigEndian;
    if code[f.pc] == OP_MLOAD {
      CoversDrop(s, f.stack, 1);
      var r := Handle(env, code, f);
      if r.Continue? {
        assert r == MLoad(f);
        CoversPush(Below(s, 1), Drop(f.stack, 1), Unknown, Peek(r.frame.stack, 1));
      }
    } else {
      CoversDrop(s, f.stack, 2);
      assert Below(s, 2) + [] == Below(s, 2);
      CoversLength(s, f.stack);
    }
  }

  /** Every execution makes the planned accesses in order, as far as it gets. */
  lemma {:induction false} AccessesArePlanned<W(!new)>(env: Env<W>, code: seq<byte>, entry: nat, f: Frame<W>, s: seq<Const>)
    requires ValidEnv(env) && ValidFrame(f) && Covers(s, f.stack) && Scan(code, entry, f.pc, s).Some?
    ensures var planned, made := Scan(code, entry, f.pc, s).value, DirectAccesses(env, code, entry, f);
            made <= planned && (RunBlock(env, code, entry, f).Continue? ==> made == planned)
    ensures RunBlock(env, code, entry, f).Continue? || RunBlock(env, code, entry, f).Fail?
    decreases if f.pc < |code| then |code| - f.pc else 0
  {
    if !AtBlockEnd(code, entry, f.pc) {
      hide Handle, AbsStep, Covers, CheckExpand, MaxNeed, Needs;
      ScanStep(code, entry, f.pc, s);
      HandleKeepsFrame(env, code, f);
      var step, r := AbsStep(code, f.pc, s), Handle(env, code, f);
      if IsDirect(code[f.pc]) {
        DirectStepSound(env, code, f, s);
      } else {
        StackStepSound(env, code, f, s);
      }
      if r.Continue? {
        AccessesArePlanned(env, code, entry, r.frame, step.stack);
        PrefixCons(Opt(step.access), DirectAccesses(env, code, entry, r.frame), Scan(code, entry, Next(code, f.pc), step.stack).value);
      }
    }
  }

  lemma PrefixCons(here: seq<Access>, made: seq<Access>, planned: seq<Access>)
    requires made <= planned
    ensures here + made <= here + planned
  {
  }

  /** `f2` is `f1` with memory already grown to `need` bytes and paid for. */
  ghost predicate Ahead<W>(f1: Frame<W>, f2: Frame<W>, need: nat) {
    && f2.pc == f1.pc && f2.stack == f1.stack && f2.world == f1.world
    && f2.memory == Grown(f1.memory, need)
    && f1.gas - f2.gas == MemoryCost(|f2.memory| / 32) - MemoryCost(|f1.memory| / 32)
  }

  lemma GrownCovers(bytes: seq<byte>, need: nat, small: nat)
    requires small <= need
    ensures Grown(Grown(bytes, need), small) == Grown(bytes, need)
    ensures Grown(Grown(bytes, small), need) == Grown(bytes, need)
  {
    GrownTwice(bytes, need, small);
    GrownTwice(bytes, small, need);
  }

  /** Growing and writing inside the smaller memory commute. */
  lemma WriteThenGrow(bytes: seq<byte>, offset: nat, value: word, width: nat, need: nat)
    requires offset + width <= |bytes|
    ensures Written(Grown(bytes, need), offset, value, width) == Grown(Written(bytes, offset, value, width), need)
  {
  }

  /** The two expansions of one access, with and without the precheck. */
  lemma ExpandAhead(bytes: seq<byte>, gas1: nat, gas2: nat, a: Access, need: nat)
    requires WellSized(bytes) && Needs(a) <= need <= MAX_REQUIRED_MEMORY_SIZE
    requires gas1 - gas2 == MemoryCost(|Grown(bytes, need)| / 32) - MemoryCost(|bytes| / 32)
    ensures WellSized(Grown(bytes, need))
    ensures var m1, m2 := CheckExpand(Memory(bytes, gas1), a.offset, a.size), CheckExpand(Memory(Grown(bytes, need), gas2), a.offset, a.size);
            && m1.Some? && m1.value.bytes == Grown(bytes, Needs(a)) && WellSized(m1.value.bytes)
            && (a.size != 0 ==> a.offset + a.size <= |m1.value.bytes|)
            && m2 == Some(Memory(Grown(m1.value.bytes, need), gas2)) && Grown(m1.value.bytes, need) == Grown(bytes, need)
            && m1.value.gas - gas2 == MemoryCost(|Grown(bytes, need)| / 32) - MemoryCost(|m1.value.bytes| / 32)
  {
    hide CheckExpand, MemoryCost;
    var once, full := Grown(bytes, Needs(a)), Grown(bytes, need);
    GrownCovers(bytes, need, Needs(a));
    AlignWithinLimit(need);
    CheckExpandExact(Memory(bytes, gas1), a);
    CheckExpandExact(Memory(full, gas2), a);
    MemoryCostMonotone(|once| / 32, |full| / 32);
    MemoryCostMonotone(|bytes| / 32, |once| / 32);
  }

  /** A direct access keeps the two executions in step. */
  lemma DirectInStep<W>(env: Env<W>, code: seq<byte>, f1: Frame<W>, f2: Frame<W>, s: seq<Const>, need: nat)
    requires f1.pc < |code| && ValidFrame(f1) && ValidFrame(f2) && Ahead(f1, f2, need) && need <= MAX_REQUIRED_MEMORY_SIZE
    requires Covers(s, f1.stack) && AbsStep(code, f1.pc, s).Accept? && IsDirect(code[f1.pc])
    requires AbsStep(code, f1.pc, s).access.Some? ==> Needs(AbsStep(code, f1.pc, s).access.value) <= need
    ensures var r1, r2 := Handle(env, code, f1), Handle(env, code, f2);
            r1.Continue? && r2.Continue? && Ahead(r1.frame, r2.frame, need)
            && |r1.frame.memory| >= Max(|f1.memory|, Align32(Needs(AbsStep(code, f1.pc, s).access.value)))
  {
    DirectStepSound(env, code, f1, s);
    DirectStepSound(env, code, f2, s);
    var a := AbsStep(code, f1.pc, s).access.value;
    ExpandAhead(f1.memory, f1.gas, f2.gas, a, need);
    hide CheckExpand, Covers, Written, BigEndian, AbsStep, MemoryCost, Grown;
    var m1 := CheckExpand(Memory(f1.memory, f1.gas), a.offset, a.size).value;
    var full := Grown(f1.memory, need);
    if code[f1.pc] == OP_MLOAD {
      assert Handle(env, code, f1) == MLoad(f1) && Handle(env, code, f2) == MLoad(f2);
      assert Slice(full, a.offset, 32) == Slice(m1.bytes, a.offset, 32);
    } else {
      assert Handle(env, code, f1) == MStore(f1, a.size) && Handle(env, code, f2) == MStore(f2, a.size);
      WriteThenGrow(m1.bytes, a.offset, Peek(f1.stack, 2), a.size, need);
    }
  }

  /** So does a stack instruction, unless it is an MSIZE that would see the difference. */
  lemma StackInStep<W>(env: Env<W>, code: seq<byte>, f1: Frame<W>, f2: Frame<W>, s: seq<Const>, need: nat)
    requires f1.pc < |code| && ValidFrame(f1) && ValidFrame(f2) && Ahead(f1, f2, need)
    requires Covers(s, f1.stack) && AbsStep(code, f1.pc, s).Accept? && !IsDirect(code[f1.pc])
    requires code[f1.pc] == OP_MSIZE ==> |f1.memory| == |f2.memory|
    ensures var r1, r2 := Handle(env, code, f1), Handle(env, code, f2);
            if r1.Continue? then r2.Continue? && Ahead(r1.frame, r2.frame, need) && r1.frame.memory == f1.memory
            else r1.Fail? && r2.Fail?
  {
    hide Covers, Grown, MemoryCost, MLoad, MStore, RunPlain, RunSensitive;
    StackStepSound(env, code, f1, s);
  }

  /** The largest need so far, after one more instruction. */
  function Seen(seen: nat, access: Option<Access>): (n: nat) {
    if access.Some? then Max(seen, Needs(access.value)) else seen
  }

  /** One instruction keeps the two executions in step and memory as large as the accesses seen. */
  lemma BothStep<W>(env: Env<W>, code: seq<byte>, f1: Frame<W>, f2: Frame<W>, s: seq<Const>, seen: nat, need: nat)
    requires f1.pc < |code| && ValidFrame(f1) && ValidFrame(f2) && Ahead(f1, f2, need) && need <= MAX_REQUIRED_MEMORY_SIZE
    requires Covers(s, f1.stack) && AbsStep(code, f1.pc, s).Accept? && Align32(seen) <= |f1.memory|
    requires AbsStep(code, f1.pc, s).access.Some? ==> Needs(AbsStep(code, f1.pc, s).access.value) <= need
    requires code[f1.pc] == OP_MSIZE ==> |f1.memory| == |f2.memory|
    ensures var step, r1, r2 := AbsStep(code, f1.pc, s), Handle(env, code, f1), Handle(env, code, f2);
            var seen' := Seen(seen, step.access);
            && (if r1.Continue? then
                  && r2.Continue? && Ahead(r1.frame, r2.frame, need) && Covers(step.stack, r1.frame.stack)
                  && r1.frame.pc == Next(code, f1.pc) && Align32(seen') <= |r1.frame.memory|
                  && (|f1.memory| == Align32(seen) ==> |r1.frame.memory| == Align32(seen'))
                else r1.Fail? && r2.Fail?)
            && (if IsDirect(code[f1.pc]) then seen' > 0 else seen' == seen)
  {
    hide Handle, AbsStep, Covers, CheckExpand, Grown, MemoryCost, Needs;
    var step := AbsStep(code, f1.pc, s);
    if IsDirect(code[f1.pc]) {
      DirectStepSound(env, code, f1, s);
      DirectInStep(env, code, f1, f2, s, need);
      NeedPositive(code, f1.pc, s);
      AlignMax(seen, Needs(step.access.value));
      CheckExpandExact(Memory(f1.memory, f1.gas), step.access.value);
    } else {
      StackStepSound(env, code, f1, s);
      StackInStep(env, code, f1, f2, s, need);
    }
  }

  /**
   No MSIZE between the first access and the one that fixes the final size: `seen` is the
   largest need so far (0 before the first access), `need` the block's largest.
   */
  predicate MsizeStable(code: seq<byte>, entry: nat, pc: nat, s: seq<Const>, seen: nat, need: nat)
    decreases if pc < |code| then |code| - pc else 0
  {
    AtBlockEnd(code, entry, pc) ||
    match AbsStep(code, pc, s)
    case Reject => true
    case Accept(s', a) =>
      && (code[pc] == OP_MSIZE && seen > 0 ==> Align32(seen) >= Align32(need))
      && MsizeStable(code, entry, Next(code, pc), s', Seen(seen, a), need)
  }

  lemma ScanStep(code: seq<byte>, entry: nat, pc: nat, s: seq<Const>)
    requires !AtBlockEnd(code, entry, pc) && Scan(code, entry, pc, s).Some?
    ensures AbsStep(code, pc, s).Accept?
    ensures var step := AbsStep(code, pc, s);
            var rest := Scan(code, entry, Next(code, pc), step.stack);
            && rest.Some? && Scan(code, entry, pc, s).value == Opt(step.access) + rest.value
            && MaxNeed(rest.value) <= MaxNeed(Scan(code, entry, pc, s).value)
            && (step.access.Some? ==> Needs(step.access.value) <= MaxNeed(Scan(code, entry, pc, s).value))
  {
    hide AbsStep;
    var step := AbsStep(code, pc, s);
    var rest := Scan(code, entry, Next(code, pc), step.stack).value;
    if step.access.Some? {
      assert ([step.access.value] + rest)[1..] == rest;
    } else {
      assert [] + rest == rest;
    }
  }

  /** Once the expansion is paid, the two executions of the rest of the block stay in step to its end. */
  lemma {:induction false} RunsInStep<W(!new)>(
    env: Env<W>, code: seq<byte>, entry: nat, f1: Frame<W>, f2: Frame<W>, s: seq<Const>, seen: nat, need: nat)
    requires ValidEnv(env) && ValidFrame(f1) && ValidFrame(f2) && Ahead(f1, f2, need) && need <= MAX_REQUIRED_MEMORY_SIZE
    requires Covers(s, f1.stack) && Scan(code, entry, f1.pc, s).Some?
    requires MaxNeed(Scan(code, entry, f1.pc, s).value) <= need
    requires Align32(seen) <= |f1.memory|
    requires seen > 0 || (!AtBlockEnd(code, entry, f1.pc) && IsDirect(code[f1.pc]))
    requires MsizeStable(code, entry, f1.pc, s, seen, need)
    ensures var r1, r2 := RunBlock(env, code, entry, f1), RunBlock(env, code, entry, f2);
            if r1.Continue? then r2.Continue? && Ahead(r1.frame, r2.frame, need)
            else r1.Fail? && r2.Fail?
    decreases if f1.pc < |code| then |code| - f1.pc else 0
  {
    if !AtBlockEnd(code, entry, f1.pc) {
      hide Handle, AbsStep, Covers, CheckExpand, Grown, MemoryCost, Needs;
      ScanStep(code, entry, f1.pc, s);
      HandleKeepsFrame(env, code, f1);
      HandleKeepsFrame(env, code, f2);
      AheadSizes(f1, f2, seen, need);
      BothStep(env, code, f1, f2, s, seen, need);
      var step := AbsStep(code, f1.pc, s);
      var r1, r2 := Handle(env, code, f1), Handle(env, code, f2);
      if r1.Continue? {
        RunsInStep(env, code, entry, r1.frame, r2.frame, step.stack, Seen(seen, step.access), need);
      }
    }
  }

  lemma {:induction false} PlannedSizesPositive(code: seq<byte>, entry: nat, pc: nat, s: seq<Const>, i: nat)
    requires Scan(code, entry, pc, s).Some? && i < |Scan(code, entry, pc, s).value|
    ensures Scan(code, entry, pc, s).value[i].size > 0
    decreases if pc < |code| then |code| - pc else 0
  {
    ScanStep(code, entry, pc, s);
    var step := AbsStep(code, pc, s);
    var n := |Opt(step.access)|;
    if i < n {
      NeedPositive(code, pc, s);
    } else {
      hide AbsStep;
      PlannedSizesPositive(code, entry, Next(code, pc), step.stack, i - n);
    }
  }

  lemma NeedPositive(code: seq<byte>, pc: nat, s: seq<Const>)
    requires pc < |code| && AbsStep(code, pc, s).Accept? && AbsStep(code, pc, s).access.Some?
    ensures Needs(AbsStep(code, pc, s).access.value) > 0
  {
  }

  lemma AlignMax(a: nat, b: nat)
    ensures Align32(Max(a, b)) == Max(Align32(a), Align32(b))
  {
  }

  lemma AheadSizes<W>(f1: Frame<W>, f2: Frame<W>, seen: nat, need: nat)
    requires Ahead(f1, f2, need) && Align32(seen) <= |f1.memory|
    ensures Align32(seen) >= Align32(need) ==> |f2.memory| == |f1.memory|
    ensures |f2.memory| == |f1.memory| == Align32(seen) ==> Align32(seen) >= Align32(need)
  {
  }

  /** A completed execution has grown memory to the largest need and paid the difference. */
  lemma {:induction false} CompletedRunPaid<W(!new)>(env: Env<W>, code: seq<byte>, entry: nat, f: Frame<W>, s: seq<Const>)
    requires ValidEnv(env) && ValidFrame(f) && Covers(s, f.stack) && Scan(code, entry, f.pc, s).Some?
    requires RunBlock(env, code, entry, f).Continue?
    ensures var need := MaxNeed(Scan(code, entry, f.pc, s).value);
            var end := RunBlock(env, code, entry, f).frame;
            && need <= MAX_REQUIRED_MEMORY_SIZE && |end.memory| == Max(|f.memory|, Align32(need))
            && f.gas - end.gas == MemoryCost(|end.memory| / 32) - MemoryCost(|f.memory| / 32)
    decreases if f.pc < |code| then |code| - f.pc else 0
  {
    if AtBlockEnd(code, entry, f.pc) {
      assert Align32(0) == 0;
    } else {
      hide Handle, AbsStep, Covers, CheckExpand, MemoryCost, Needs;
      ScanStep(code, entry, f.pc, s);
      HandleKeepsFrame(env, code, f);
      var step, r := AbsStep(code, f.pc, s), Handle(env, code, f);
      var rest := Scan(code, entry, Next(code, f.pc), step.stack).value;
      if IsDirect(code[f.pc]) {
        DirectStepSound(env, code, f, s);
        CheckExpandExact(Memory(f.memory, f.gas), step.access.value);
        assert ([step.access.value] + rest)[1..] == rest;
        AlignMax(Needs(step.access.value), MaxNeed(rest));
      } else {
        StackStepSound(env, code, f, s);
        assert [] + rest == rest;
      }
      CompletedRunPaid(env, code, entry, r.frame, step.stack);
    }
  }

  /** Same frame at the end of the block, or both executions fail. */
  predicate SameOrBothFail<W(==)>(a: Step<W>, b: Step<W>) {
    a == b || (a.Fail? && b.Fail?)
  }

  /**
   The precheck is sound when no MSIZE can see the memory grow early: for every frame, the
   block leaves the same stack, memory and gas with one expansion to its largest need as
   with one at each access, or fails both ways.
   */
  lemma {:induction false} PrecheckSoundFrom<W(!new)>(
    env: Env<W>, code: seq<byte>, entry: nat, f: Frame<W>, s: seq<Const>, need: nat)
    requires ValidEnv(env) && ValidFrame(f) && Covers(s, f.stack) && Scan(code, entry, f.pc, s).Some?
    requires MaxNeed(Scan(code, entry, f.pc, s).value) == need && MsizeStable(code, entry, f.pc, s, 0, need)
    ensures SameOrBothFail(RunBlock(env, code, entry, f), RunPrechecked(env, code, entry, need, f))
    decreases if f.pc < |code| then |code| - f.pc else 0
  {
    if !AtBlockEnd(code, entry, f.pc) {
      hide Handle, AbsStep, Covers, CheckExpand, Grown, MemoryCost, Needs;
      ScanStep(code, entry, f.pc, s);
      HandleKeepsFrame(env, code, f);
      var step, r := AbsStep(code, f.pc, s), Handle(env, code, f);
      if IsDirect(code[f.pc]) {
        PrecheckAtFirstAccess(env, code, entry, f, s, need);
      } else {
        StackStepSound(env, code, f, s);
        var rest := Scan(code, entry, Next(code, f.pc), step.stack).value;
        assert [] + rest == rest;
        if r.Continue? {
          PrecheckSoundFrom(env, code, entry, r.frame, step.stack, need);
        }
      }
    }
  }

  lemma PrecheckAtFirstAccess<W(!new)>(env: Env<W>, code: seq<byte>, entry: nat, f: Frame<W>, s: seq<Const>, need: nat)
    requires ValidEnv(env) && ValidFrame(f) && Covers(s, f.stack) && Scan(code, entry, f.pc, s).Some?
    requires MaxNeed(Scan(code, entry, f.pc, s).value) == need && MsizeStable(code, entry, f.pc, s, 0, need)
    requires !AtBlockEnd(code, entry, f.pc) && IsDirect(code[f.pc])
    ensures SameOrBothFail(RunBlock(env, code, entry, f), RunPrechecked(env, code, entry, need, f))
  {
    var plain := RunBlock(env, code, entry, f);
    AccessesArePlanned(env, code, entry, f, s);
    hide RunBlock, Covers, MsizeStable, Scan, Handle, MemoryCost, MaxNeed;
    if need > MAX_REQUIRED_MEMORY_SIZE {
      if plain.Continue? {
        CompletedRunPaid(env, code, entry, f, s);
      }
    } else {
      ExpandExact(Memory(f.memory, f.gas), need);
      if ExpandAndCharge(Memory(f.memory, f.gas), need).None? {
        if plain.Continue? {
          CompletedRunPaid(env, code, entry, f, s);
        }
      } else {
        var m := ExpandAndCharge(Memory(f.memory, f.gas), need).value;
        var ahead := f.(memory := m.bytes, gas := m.gas);
        assert Align32(0) == 0;
        RunsInStep(env, code, entry, f, ahead, s, 0, need);
        if plain.Continue? {
          CompletedRunPaid(env, code, entry, f, s);
          AheadAtEnd(plain.frame, RunBlock(env, code, entry, ahead).frame, need);
        }
      }
    }
  }

  lemma AheadAtEnd<W>(f1: Frame<W>, f2: Frame<W>, need: nat)
    requires Ahead(f1, f2, need) && |f1.memory| >= Align32(need)
    ensures f1 == f2
  {
  }

  lemma EmptyCovers(stack: seq<word>)
    ensures Covers([], stack)
  {
  }

  /** What the MSIZE instructions of an execution push, in order. */
  ghost function MsizeReads<W(!new)>(env: Env<W>, code: seq<byte>, entry: nat, f: Frame<W>): (sizes: seq<nat>)
    requires ValidEnv(env) && ValidFrame(f)
    decreases if f.pc < |code| then |code| - f.pc else 0
  {
    if AtBlockEnd(code, entry, f.pc) then []
    else
      HandleKeepsFrame(env, code, f);
      var r := Handle(env, code, f);
      var here := if code[f.pc] == OP_MSIZE then [|f.memory|] else [];
      if r.Continue? then here + MsizeReads(env, code, entry, r.frame) else here
  }

  ghost function PrecheckedReads<W(!new)>(env: Env<W>, code: seq<byte>, entry: nat, need: nat, f: Frame<W>): (sizes: seq<nat>)
    requires ValidEnv(env) && ValidFrame(f)
    decreases if f.pc < |code| then |code| - f.pc else 0
  {
    if AtBlockEnd(code, entry, f.pc) then []
    else if IsDirect(code[f.pc]) then
      match ExpandAndCharge(Memory(f.memory, f.gas), need)
      case None => []
      case Some(m) =>
        ExpandExact(Memory(f.memory, f.gas), need);
        MsizeReads(env, code, entry, f.(memory := m.bytes, gas := m.gas))
    else
      HandleKeepsFrame(env, code, f);
      var r := Handle(env, code, f);
      var here := if code[f.pc] == OP_MSIZE then [|f.memory|] else [];
      if r.Continue? then here + PrecheckedReads(env, code, entry, need, r.frame) else here
  }

  /** The precheck cannot be told from the plain block: same outcome and, if it completes, the same sizes read on the way. */
  ghost predicate Transparent<W(!new)>(env: Env<W>, code: seq<byte>, need: nat, f: Frame<W>)
    requires ValidEnv(env) && ValidFrame(f)
  {
    && SameOrBothFail(RunBlock(env, code, f.pc, f), RunPrechecked(env, code, f.pc, need, f))
    && (RunBlock(env, code, f.pc, f).Continue? ==>
          MsizeReads(env, code, f.pc, f) == PrecheckedReads(env, code, f.pc, need, f))
  }

  /**
   Two completed executions in step read the same sizes exactly when no MSIZE comes too
   early; the second half needs memory to be no larger than the accesses have made it.
   */
  lemma {:induction false} ReadsInStep<W(!new)>(
    env: Env<W>, code: seq<byte>, entry: nat, f1: Frame<W>, f2: Frame<W>, s: seq<Const>, seen: nat, need: nat)
    requires ValidEnv(env) && ValidFrame(f1) && ValidFrame(f2) && Ahead(f1, f2, need) && need <= MAX_REQUIRED_MEMORY_SIZE
    requires Covers(s, f1.stack) && Scan(code, entry, f1.pc, s).Some?
    requires MaxNeed(Scan(code, entry, f1.pc, s).value) <= need
    requires Align32(seen) <= |f1.memory|
    requires seen > 0 || (!AtBlockEnd(code, entry, f1.pc) && IsDirect(code[f1.pc]))
    requires RunBlock(env, code, entry, f1).Continue?
    ensures MsizeStable(code, entry, f1.pc, s, seen, need) ==>
              MsizeReads(env, code, entry, f1) == MsizeReads(env, code, entry, f2)
    ensures !MsizeStable(code, entry, f1.pc, s, seen, need) && |f1.memory| == Align32(seen) ==>
              MsizeReads(env, code, entry, f1) != MsizeReads(env, code, entry, f2)
    decreases if f1.pc < |code| then |code| - f1.pc else 0
  {
    if !AtBlockEnd(code, entry, f1.pc) {
      hide Handle, AbsStep, Covers, CheckExpand, Grown, MemoryCost, Needs, Scan, MsizeReads;
      ScanStep(code, entry, f1.pc, s);
      HandleKeepsFrame(env, code, f1);
      HandleKeepsFrame(env, code, f2);
      AheadSizes(f1, f2, seen, need);
      if code[f1.pc] == OP_MSIZE && |f1.memory| != |f2.memory| {
        EarlyMsizeDiffers(env, code, entry, f1, f2);
      } else {
        BothStep(env, code, f1, f2, s, seen, need);
        var step := AbsStep(code, f1.pc, s);
        var r1, r2 := Handle(env, code, f1), Handle(env, code, f2);
        ReadsInStep(env, code, entry, r1.frame, r2.frame, step.stack, Seen(seen, step.access), need);
        ConsReads(env, code, entry, f1, f2);
      }
    }
  }

  /** A common first reading can be dropped from both sides. */
  lemma ConsReads<W(!new)>(env: Env<W>, code: seq<byte>, entry: nat, f1: Frame<W>, f2: Frame<W>)
    requires ValidEnv(env) && ValidFrame(f1) && ValidFrame(f2) && f1.pc == f2.pc
    requires !AtBlockEnd(code, entry, f1.pc) && (code[f1.pc] == OP_MSIZE ==> |f1.memory| == |f2.memory|)
    requires Handle(env, code, f1).Continue? && Handle(env, code, f2).Continue?
    ensures var g1, g2 := Handle(env, code, f1).frame, Handle(env, code, f2).frame;
            && ValidFrame(g1) && ValidFrame(g2)
            && (MsizeReads(env, code, entry, f1) == MsizeReads(env, code, entry, f2)
                <==> MsizeReads(env, code, entry, g1) == MsizeReads(env, code, entry, g2))
  {
    HandleKeepsFrame(env, code, f1);
    HandleKeepsFrame(env, code, f2);
    hide Handle;
    var here := if code[f1.pc] == OP_MSIZE then [|f1.memory|] else [];
    var t1, t2 := MsizeReads(env, code, entry, Handle(env, code, f1).frame), MsizeReads(env, code, entry, Handle(env, code, f2).frame);
    assert MsizeReads(env, code, entry, f1) == here + t1 && MsizeReads(env, code, entry, f2) == here + t2;
    assert (here + t1)[|here|..] == t1 && (here + t2)[|here|..] == t2;
  }

  lemma EarlyMsizeDiffers<W(!new)>(
    env: Env<W>, code: seq<byte>, entry: nat, f1: Frame<W>, f2: Frame<W>)
    requires ValidEnv(env) && ValidFrame(f1) && ValidFrame(f2) && f1.pc == f2.pc
    requires !AtBlockEnd(code, entry, f1.pc) && code[f1.pc] == OP_MSIZE && |f1.memory| != |f2.memory|
    ensures MsizeReads(env, code, entry, f1) != MsizeReads(env, code, entry, f2)
  {
    hide Handle;
    assert MsizeReads(env, code, entry, f1)[0] == |f1.memory|;
    assert MsizeReads(env, code, entry, f2)[0] == |f2.memory|;
  }

  /** A block that pushes past the stack limit even from an empty stack. */
  predicate Overflows(code: seq<byte>, entry: nat, pc: nat, s: seq<Const>)
    decreases if pc < |code| then |code| - pc else 0
  {
    !AtBlockEnd(code, entry, pc) &&
    match AbsStep(code, pc, s)
    case Reject => false
    case Accept(s', _) => |s'| > MAXSTACK || Overflows(code, entry, Next(code, pc), s')
  }

  /** The theorem for the analyser's plan, from the block's entry and any stack. */
  lemma ConstPrecheckSound<W(!new)>(env: Env<W>, code: seq<byte>, f: Frame<W>, plan: Plan)
    requires ValidEnv(env) && ValidFrame(f) && Scan(code, f.pc, f.pc, []).Some?
    requires var accesses := Scan(code, f.pc, f.pc, []).value;
             plan == Plan(|accesses| >= 2, MaxNeed(accesses), |accesses|)
    ensures var made := DirectAccesses(env, code, f.pc, f);
            && |made| <= plan.coveredDirectOps
            && (forall i :: 0 <= i < |made| ==> made[i].offset + made[i].size <= plan.maxRequiredSize)
            && (RunBlock(env, code, f.pc, f).Continue? ==> |made| == plan.coveredDirectOps)
    ensures MsizeStable(code, f.pc, f.pc, [], 0, plan.maxRequiredSize) ==>
              SameOrBothFail(RunBlock(env, code, f.pc, f), RunPrechecked(env, code, f.pc, plan.maxRequiredSize, f))
  {
    hide AbsStep, Scan, Handle, RunBlock, RunPrechecked, DirectAccesses, MsizeStable, MaxNeed, Covers;
    var entry := f.pc;
    EmptyCovers(f.stack);
    AccessesArePlanned(env, code, entry, f, []);
    var planned, made := Scan(code, entry, entry, []).value, DirectAccesses(env, code, entry, f);
    forall i | 0 <= i < |made|
      ensures made[i].offset + made[i].size <= plan.maxRequiredSize
    {
      assert made[i] == planned[i];
      PlannedSizesPositive(code, entry, entry, [], i);
    }
    if MsizeStable(code, entry, entry, [], 0, plan.maxRequiredSize) {
      PrecheckSoundFrom(env, code, entry, f, [], plan.maxRequiredSize);
    }
  }

  /** With the precheck, a completed block reads the same sizes exactly when no MSIZE comes too early. */
  lemma {:induction false} PrecheckReads<W(!new)>(
    env: Env<W>, code: seq<byte>, entry: nat, f: Frame<W>, s: seq<Const>, need: nat)
    requires ValidEnv(env) && ValidFrame(f) && Covers(s, f.stack) && Scan(code, entry, f.pc, s).Some?
    requires MaxNeed(Scan(code, entry, f.pc, s).value) == need && RunBlock(env, code, entry, f).Continue?
    ensures MsizeStable(code, entry, f.pc, s, 0, need) ==>
              MsizeReads(env, code, entry, f) == PrecheckedReads(env, code, entry, need, f)
    ensures !MsizeStable(code, entry, f.pc, s, 0, need) && f.memory == [] ==>
              MsizeReads(env, code, entry, f) != PrecheckedReads(env, code, entry, need, f)
    decreases if f.pc < |code| then |code| - f.pc else 0
  {
    if !AtBlockEnd(code, entry, f.pc) {
      hide Handle, AbsStep, Covers, CheckExpand, Grown, MemoryCost, Needs;
      if IsDirect(code[f.pc]) {
        CompletedRunPaid(env, code, entry, f, s);
        ExpandExact(Memory(f.memory, f.gas), need);
        var m := ExpandAndCharge(Memory(f.memory, f.gas), need).value;
        assert Align32(0) == 0;
        ReadsInStep(env, code, entry, f, f.(memory := m.bytes, gas := m.gas), s, 0, need);
      } else {
        ScanStep(code, entry, f.pc, s);
        HandleKeepsFrame(env, code, f);
        StackStepSound(env, code, f, s);
        var step, g := AbsStep(code, f.pc, s), Handle(env, code, f).frame;
        assert [] + Scan(code, entry, g.pc, step.stack).value == Scan(code, entry, g.pc, step.stack).value;
        PrecheckReads(env, code, entry, g, step.stack, need);
        var here := if code[f.pc] == OP_MSIZE then [|f.memory|] else [];
        var t1, t2 := MsizeReads(env, code, entry, g), PrecheckedReads(env, code, entry, need, g);
        assert (here + t1)[|here|..] == t1 && (here + t2)[|here|..] == t2;
      }
    }
  }

  /** The real stack has the height of the abstract one, and only a push beyond the limit fails. */
  lemma StepHeight<W>(env: Env<W>, code: seq<byte>, f: Frame<W>, s: seq<Const>)
    requires f.pc < |code| && ValidFrame(f) && |f.stack| == |s| && AbsStep(code, f.pc, s).Accept?
    ensures !IsDirect(code[f.pc]) && |AbsStep(code, f.pc, s).stack| <= MAXSTACK ==> Handle(env, code, f).Continue?
    ensures Handle(env, code, f).Continue? ==> |Handle(env, code, f).frame.stack| == |AbsStep(code, f.pc, s).stack|
  {
    hide RunPlain, RunSensitive, CheckExpand, Written, BigEndian;
  }

  /** With an empty stack and enough gas, a block within the limits completes. */
  lemma {:induction false} BlockCompletes<W(!new)>(env: Env<W>, code: seq<byte>, entry: nat, f: Frame<W>, s: seq<Const>, need: nat)
    requires ValidEnv(env) && ValidFrame(f) && Covers(s, f.stack) && |f.stack| == |s| && Scan(code, entry, f.pc, s).Some?
    requires MaxNeed(Scan(code, entry, f.pc, s).value) <= need <= MAX_REQUIRED_MEMORY_SIZE && !Overflows(code, entry, f.pc, s)
    requires |f.memory| <= Align32(need) && f.gas >= MemoryCost(Align32(need) / 32) - MemoryCost(|f.memory| / 32)
    ensures RunBlock(env, code, entry, f).Continue?
    decreases if f.pc < |code| then |code| - f.pc else 0
  {
    if !AtBlockEnd(code, entry, f.pc) {
      hide Handle, AbsStep, Covers, CheckExpand, MemoryCost, Needs, Scan;
      ScanStep(code, entry, f.pc, s);
      HandleKeepsFrame(env, code, f);
      StepHeight(env, code, f, s);
      var step, r := AbsStep(code, f.pc, s), Handle(env, code, f);
      if IsDirect(code[f.pc]) {
        DirectStepSound(env, code, f, s);
        var a := step.access.value;
        CheckExpandExact(Memory(f.memory, f.gas), a);
        AlignMax(Needs(a), need);
        MemoryCostMonotone(|Grown(f.memory, Needs(a))| / 32, Align32(need) / 32);
      } else {
        StackStepSound(env, code, f, s);
      }
      BlockCompletes(env, code, entry, r.frame, step.stack, need);
    }
  }

  /** A block that overflows completes from no frame. */
  lemma {:induction false} OverflowFails<W(!new)>(env: Env<W>, code: seq<byte>, entry: nat, f: Frame<W>, s: seq<Const>)
    requires ValidEnv(env) && ValidFrame(f) && Covers(s, f.stack) && Scan(code, entry, f.pc, s).Some? && Overflows(code, entry, f.pc, s)
    ensures RunBlock(env, code, entry, f).Fail?
    decreases if f.pc < |code| then |code| - f.pc else 0
  {
    hide Handle, AbsStep, Covers, CheckExpand, MemoryCost, Needs, Scan;
    ScanStep(code, entry, f.pc, s);
    HandleKeepsFrame(env, code, f);
    var step, r := AbsStep(code, f.pc, s), Handle(env, code, f);
    if IsDirect(code[f.pc]) {
      DirectStepSound(env, code, f, s);
    } else {
      StackStepSound(env, code, f, s);
    }
    if r.Continue? {
      CoversLength(step.stack, r.frame.stack);
      OverflowFails(env, code, entry, r.frame, step.stack);
    }
  }

  /** A block that overflows, or asks for more memory than allowed, fails with the precheck too. */
  lemma {:induction false} HopelessPrecheckFails<W(!new)>(
    env: Env<W>, code: seq<byte>, entry: nat, f: Frame<W>, s: seq<Const>, need: nat)
    requires ValidEnv(env) && ValidFrame(f) && Covers(s, f.stack) && Scan(code, entry, f.pc, s).Some?
    requires MaxNeed(Scan(code, entry, f.pc, s).value) == need
    requires Overflows(code, entry, f.pc, s) || need > MAX_REQUIRED_MEMORY_SIZE
    ensures RunPrechecked(env, code, entry, need, f).Fail?
    decreases if f.pc < |code| then |code| - f.pc else 0
  {
    hide Handle, AbsStep, Covers, CheckExpand, Grown, MemoryCost, Needs, RunBlock;
    ScanStep(code, entry, f.pc, s);
    if IsDirect(code[f.pc]) {
      var m := ExpandAndCharge(Memory(f.memory, f.gas), need);
      if m.Some? {
        ExpandExact(Memory(f.memory, f.gas), need);
        OverflowFails(env, code, entry, f.(memory := m.value.bytes, gas := m.value.gas), s);
      }
    } else {
      HandleKeepsFrame(env, code, f);
      StackStepSound(env, code, f, s);
      var step, r := AbsStep(code, f.pc, s), Handle(env, code, f);
      if r.Continue? {
        assert [] + Scan(code, entry, r.frame.pc, step.stack).value == Scan(code, entry, r.frame.pc, step.stack).value;
        CoversLength(step.stack, r.frame.stack);
        HopelessPrecheckFails(env, code, entry, r.frame, step.stack, need);
      }
    }
  }

  /**
   Exactly which blocks the precheck is transparent for, over all frames that can enter
   them: those with no early MSIZE, and those no execution completes anyway.
   */
  lemma PrecheckTransparentIff<W(!new)>(env: Env<W>, code: seq<byte>, entry: nat, world: W)
    requires ValidEnv(env) && Scan(code, entry, entry, []).Some?
    ensures var need := MaxNeed(Scan(code, entry, entry, []).value);
            (forall f: Frame<W> :: ValidFrame(f) && f.pc == entry ==> Transparent(env, code, need, f))
            <==> (|| MsizeStable(code, entry, entry, [], 0, need)
                  || need > MAX_REQUIRED_MEMORY_SIZE || Overflows(code, entry, entry, []))
  {
    hide Scan, RunBlock, RunPrechecked, MsizeReads, PrecheckedReads, MsizeStable, Overflows, MaxNeed, MemoryCost, Covers;
    var need := MaxNeed(Scan(code, entry, entry, []).value);
    var stable, hopeless := MsizeStable(code, entry, entry, [], 0, need),
                            need > MAX_REQUIRED_MEMORY_SIZE || Overflows(code, entry, entry, []);
    if stable || hopeless {
      forall f: Frame<W> | ValidFrame(f) && f.pc == entry
        ensures Transparent(env, code, need, f)
      {
        TransparentFrame(env, code, f, need);
      }
    } else {
      var f := Frame(entry, [], [], MemoryCost(Align32(need) / 32), world);
      EmptyCovers(f.stack);
      assert ValidFrame(f);
      BlockCompletes(env, code, entry, f, [], need);
      PrecheckReads(env, code, entry, f, [], need);
      assert !Transparent(env, code, need, f);
    }
  }

  lemma TransparentFrame<W(!new)>(env: Env<W>, code: seq<byte>, f: Frame<W>, need: nat)
    requires ValidEnv(env) && ValidFrame(f) && Scan(code, f.pc, f.pc, []).Some?
    requires need == MaxNeed(Scan(code, f.pc, f.pc, []).value)
    requires || MsizeStable(code, f.pc, f.pc, [], 0, need)
             || need > MAX_REQUIRED_MEMORY_SIZE || Overflows(code, f.pc, f.pc, [])
    ensures Transparent(env, code, need, f)
  {
    hide Scan, RunBlock, RunPrechecked, MsizeReads, PrecheckedReads, MsizeStable, Overflows, MaxNeed, MemoryCost, Covers;
    EmptyCovers(f.stack);
    if MsizeStable(code, f.pc, f.pc, [], 0, need) {
      PrecheckSoundFrom(env, code, f.pc, f, [], need);
      if RunBlock(env, code, f.pc, f).Continue? {
        PrecheckReads(env, code, f.pc, f, [], need);
      }
    } else {
      HopelessPrecheckFails(env, code, f.pc, f, [], need);
      AccessesArePlanned(env, code, f.pc, f, []);
      if Overflows(code, f.pc, f.pc, []) {
        OverflowFails(env, code, f.pc, f, []);
      } else if RunBlock(env, code, f.pc, f).Continue? {
        CompletedRunPaid(env, code, f.pc, f, []);
      }
    }
  }

  /** PUSH0 MLOAD MSIZE PUSH1 32 MLOAD: the MSIZE sits between an access to word 0 and one to word 1. */
  const EARLY_MSIZE: seq<byte> := [OP_PUSH0, OP_MLOAD, OP_MSIZE, OP_PUSH1, 32, OP_MLOAD]

  /** An eligible block the precheck changes: its MSIZE pushes 64 instead of 32. */
  lemma EarlyMsizeIsVisible<W(!new)>(env: Env<W>, world: W)
    requires ValidEnv(env)
    ensures Scan(EARLY_MSIZE, 0, 0, []) == Some([Access(0, 32), Access(32, 32)])
    ensures exists f: Frame<W> :: ValidFrame(f) && f.pc == 0 && !Transparent(env, EARLY_MSIZE, 64, f)
  {
    var accesses := [Access(0, 32), Access(32, 32)];
    EarlyMsizeScan();
    assert accesses[1..] == [Access(32, 32)] && [Access(32, 32)][1..] == [];
    assert MaxNeed(accesses) == 64;
    PrecheckTransparentIff(env, EARLY_MSIZE, 0, world);
  }

  lemma EarlyMsizeSteps()
    ensures AbsStep(EARLY_MSIZE, 0, []) == Accept([Known(0)], None)
    ensures AbsStep(EARLY_MSIZE, 1, [Known(0)]) == Accept([Unknown], Some(Access(0, 32)))
    ensures AbsStep(EARLY_MSIZE, 2, [Unknown]) == Accept([Unknown, Unknown], None)
    ensures AbsStep(EARLY_MSIZE, 3, [Unknown, Unknown]) == Accept([Unknown, Unknown, Known(32)], None)
    ensures AbsStep(EARLY_MSIZE, 5, [Unknown, Unknown, Known(32)]) == Accept([Unknown, Unknown, Unknown], Some(Access(32, 32)))
  {
    assert EARLY_MSIZE[4..5] == [32] && [32][..0] == [];
    assert BigEndian([32]) == 32;
  }

  lemma EarlyMsizeNext()
    ensures Next(EARLY_MSIZE, 0) == 1 && Next(EARLY_MSIZE, 1) == 2 && Next(EARLY_MSIZE, 2) == 3
    ensures Next(EARLY_MSIZE, 3) == 5 && Next(EARLY_MSIZE, 5) == 6 && AtBlockEnd(EARLY_MSIZE, 0, 6)
    ensures forall k | k in {0, 1, 2, 3, 5} :: !AtBlockEnd(EARLY_MSIZE, 0, k)
  {
  }

  lemma EarlyMsizeScan()
    ensures Scan(EARLY_MSIZE, 0, 0, []) == Some([Access(0, 32), Access(32, 32)])
    ensures !MsizeStable(EARLY_MSIZE, 0, 0, [], 0, 64) && !Overflows(EARLY_MSIZE, 0, 0, [])
  {
    hide AbsStep, AtBlockEnd, Next;
    var code := EARLY_MSIZE;
    var s1, s2, s3: seq<Const>, s4 := [Known(0)], [Unknown], [Unknown, Unknown], [Unknown, Unknown, Known(32)];
    EarlyMsizeSteps();
    EarlyMsizeNext();
    var end := [Unknown, Unknown, Unknown];
    assert Scan(code, 0, 6, end) == Some([]) && !Overflows(code, 0, 6, end);
    assert [Access(32, 32)] + [] == [Access(32, 32)];
    assert Scan(code, 0, 5, s4) == Some([Access(32, 32)]) && !Overflows(code, 0, 5, s4);
    assert [] + [Access(32, 32)] == [Access(32, 32)];
    assert Scan(code, 0, 3, s3) == Some([Access(32, 32)]) && !Overflows(code, 0, 3, s3);
    assert Scan(code, 0, 2, s2) == Some([Access(32, 32)]) && !Overflows(code, 0, 2, s2);
    var both := [Access(0, 32)] + [Access(32, 32)];
    assert Scan(code, 0, 1, s1) == Some(both) && !Overflows(code, 0, 1, s1);
    assert [] + both == both == [Access(0, 32), Access(32, 32)];
    assert !MsizeStable(code, 0, 2, s2, 32, 64);
    assert !MsizeStable(code, 0, 1, s1, 0, 64);
  }
}
