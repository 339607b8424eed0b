/**
 How much the constant precheck understands. `Prechecks` says that what it plans is right;
 here, that it does not give up on a block whose addresses are constants.

 Execution is the measure. A value is tainted when it comes from memory, from its size or
 from a PUSH of more than eight bytes, or is a sum or difference that wraps in 64 bits or
 has a tainted operand.
 */
module PrecheckPrecision {
  import opened Basics
  import opened Bytecode
  import opened PushDecoding
  import opened MemoryGas
  import opened Semantics
  import opened FrameLaws
  import opened Prechecks

  /** Taints after the instruction at `f.pc`; `None` if it is not covered, is cut off or accesses a tainted address. */
  function TaintAfter<W>(code: seq<byte>, f: Frame<W>, taint: seq<bool>): (r: Option<seq<bool>>)
    requires f.pc < |code| && |taint| == |f.stack|
  {
    var op, n := code[f.pc], |taint|;
    if op == OP_JUMPDEST then Some(taint)
    else if op == OP_PUSH0 then Some(taint + [false])
    else if IsPush(op) then
      if Next(code, f.pc) > |code| then None else Some(taint + [op > OP_PUSH0 + 8])
    else if OP_DUP1 <= op <= OP_DUP16 then
      var k := op - OP_DUP1 + 1;
      if n < k then None else Some(taint + [taint[n - k]])
    else if OP_SWAP1 <= op <= OP_SWAP16 then
      var k := op - OP_SWAP1 + 1;
      if n <= k then None else Some(taint[n - 1 := taint[n - 1 - k]][n - 1 - k := taint[n - 1]])
    else if op == OP_POP then
      if n < 1 then None else Some(taint[..n - 1])
    else if op == OP_ADD then
      if n < 2 then None
      else Some(taint[..n - 2] + [taint[n - 1] || taint[n - 2] || f.stack[n - 1] + f.stack[n - 2] >= TWO64])
    else if op == OP_SUB then
      if n < 2 then None
      else Some(taint[..n - 2] + [taint[n - 1] || taint[n - 2] || f.stack[n - 1] < f.stack[n - 2]])
    else if op == OP_MLOAD then
      if n < 1 || taint[n - 1] then None else Some(taint[..n - 1] + [true])
    else if op == OP_MSTORE || op == OP_MSTORE8 then
      if n < 2 || taint[n - 1] then None else Some(taint[..n - 2])
    else if op == OP_MSIZE then Some(taint + [true])
    else None
  }

  /** The block runs to its end from `f`, every instruction covered and every address untainted. */
  ghost predicate CleanRun<W(!new)>(env: Env<W>, code: seq<byte>, entry: nat, f: Frame<W>, taint: seq<bool>)
    requires ValidEnv(env) && ValidFrame(f) && |taint| == |f.stack|
    decreases if f.pc < |code| then |code| - f.pc else 0
  {
    AtBlockEnd(code, entry, f.pc) ||
    (HandleKeepsFrame(env, code, f);
     var r, t := Handle(env, code, f), TaintAfter(code, f, taint);
     r.Continue? && t.Some? && |t.value| == |r.frame.stack| && CleanRun(env, code, entry, r.frame, t.value))
  }

  /** The abstract stack knows every untainted value. */
  ghost predicate Knows(s: seq<Const>, taint: seq<bool>, stack: seq<word>) {
    |s| == |taint| == |stack| && forall k: nat :: k < |s| && !taint[k] ==> s[k] == Known(stack[k])
  }

  lemma KnowsPush(s: seq<Const>, taint: seq<bool>, stack: seq<word>, c: Const, t: bool, v: word)
    requires Knows(s, taint, stack) && (!t ==> c == Known(v))
    ensures Knows(s + [c], taint + [t], stack + [v])
  {
  }

  lemma KnowsDrop(s: seq<Const>, taint: seq<bool>, stack: seq<word>, n: nat)
    requires Knows(s, taint, stack) && n <= |s|
    ensures Knows(s[..|s| - n], taint[..|s| - n], stack[..|s| - n])
  {
  }

  /** An instruction that goes through and is covered is accepted, and what it leaves is known. */
  lemma CleanStep<W(!new)>(env: Env<W>, code: seq<byte>, f: Frame<W>, taint: seq<bool>, s: seq<Const>)
    requires ValidEnv(env) && ValidFrame(f) && f.pc < |code| && Knows(s, taint, f.stack)
    requires Handle(env, code, f).Continue? && TaintAfter(code, f, taint).Some?
    ensures AbsStep(code, f.pc, s).Accept?
    ensures Knows(AbsStep(code, f.pc, s).stack, TaintAfter(code, f, taint).value, Handle(env, code, f).frame.stack)
  {
    hide MLoad, MStore, Return, RunPlain, RunSensitive, PlainKeepsFrame, SensitiveKeepsFrame;
    var op, n := code[f.pc], |s|;
    if op == OP_ADD || op == OP_SUB {
      CleanArithmetic(env, code, f, taint, s);
    } else if IsDirect(op) {
      CleanAccess(env, code, f, taint, s);
    } else if IsPush(op) {
      CleanPush(env, code, f, taint, s);
    } else if op == OP_POP {
      KnowsDrop(s, taint, f.stack, 1);
    } else if op == OP_MSIZE {
      KnowsPush(s, taint, f.stack, Unknown, true, |f.memory|);
    } else if op == OP_PUSH0 {
      KnowsPush(s, taint, f.stack, Known(0), false, 0);
    } else if OP_DUP1 <= op <= OP_DUP16 {
      var k := op - OP_DUP1 + 1;
      KnowsPush(s, taint, f.stack, s[n - k], taint[n - k], f.stack[n - k]);
    }
  }

  lemma CleanArithmetic<W(!new)>(env: Env<W>, code: seq<byte>, f: Frame<W>, taint: seq<bool>, s: seq<Const>)
    requires ValidEnv(env) && ValidFrame(f) && f.pc < |code| && Knows(s, taint, f.stack) && code[f.pc] in {OP_ADD, OP_SUB}
    requires Handle(env, code, f).Continue? && TaintAfter(code, f, taint).Some?
    ensures AbsStep(code, f.pc, s).Accept?
    ensures Knows(AbsStep(code, f.pc, s).stack, TaintAfter(code, f, taint).value, Handle(env, code, f).frame.stack)
  {
    hide MLoad, MStore, Return, RunPlain, RunSensitive, PlainKeepsFrame, SensitiveKeepsFrame;
    var n := |s|;
    var a, b := f.stack[n - 1], f.stack[n - 2];
    KnowsDrop(s, taint, f.stack, 2);
    if a + b < TWO64 {
      SmallMod(a + b, TWO256);
    }
    if b <= a {
      SmallMod(a - b, TWO256);
    }
  }

  lemma PushIsAccepted<W>(code: seq<byte>, f: Frame<W>, taint: seq<bool>, s: seq<Const>)
    requires f.pc < |code| && |taint| == |f.stack| && IsPush(code[f.pc]) && TaintAfter(code, f, taint).Some?
    ensures var n := code[f.pc] - OP_PUSH0;
            && f.pc + 1 + n <= |code| && TaintAfter(code, f, taint).value == taint + [n > 8]
            && BigEndian(code[f.pc + 1..f.pc + 1 + n]) < TWO256
            && AbsStep(code, f.pc, s) ==
               Accept(s + [if n <= 8 then Known(BigEndian(code[f.pc + 1..f.pc + 1 + n])) else Unknown], None)
  {
    hide BigEndian;
    var n := code[f.pc] - OP_PUSH0;
    PushFitsWord(code[f.pc + 1..f.pc + 1 + n]);
  }

  lemma CleanPush<W(!new)>(env: Env<W>, code: seq<byte>, f: Frame<W>, taint: seq<bool>, s: seq<Const>)
    requires ValidEnv(env) && ValidFrame(f) && f.pc < |code| && Knows(s, taint, f.stack) && IsPush(code[f.pc])
    requires Handle(env, code, f).Continue? && TaintAfter(code, f, taint).Some?
    ensures AbsStep(code, f.pc, s).Accept?
    ensures Knows(AbsStep(code, f.pc, s).stack, TaintAfter(code, f, taint).value, Handle(env, code, f).frame.stack)
  {
    hide Handle, BigEndian, AbsStep, TaintAfter;
    var n := code[f.pc] - OP_PUSH0;
    PushPushes(env, code, f, n);
    PushIsAccepted(code, f, taint, s);
    var there := code[f.pc + 1..f.pc + 1 + n];
    assert ImmediateBytes(code, f.pc, n) == there;
    var f' := Handle(env, code, f).frame;
    var v: word :| v == BigEndian(there) && Replaces(f, 0, [v], f');
    assert [v][0] == v && f'.stack == f.stack + [v];
    KnowsPush(s, taint, f.stack, if n <= 8 then Known(v) else Unknown, n > 8, v);
  }

  lemma CleanAccess<W(!new)>(env: Env<W>, code: seq<byte>, f: Frame<W>, taint: seq<bool>, s: seq<Const>)
    requires ValidEnv(env) && ValidFrame(f) && f.pc < |code| && Knows(s, taint, f.stack) && IsDirect(code[f.pc])
    requires Handle(env, code, f).Continue? && TaintAfter(code, f, taint).Some?
    ensures AbsStep(code, f.pc, s).Accept?
    ensures Knows(AbsStep(code, f.pc, s).stack, TaintAfter(code, f, taint).value, Handle(env, code, f).frame.stack)
  {
    hide Handle, BigEndian, MemoryCost, Align32;
    var f' := Handle(env, code, f).frame;
    HandleKeepsFrame(env, code, f);
    if code[f.pc] == OP_MLOAD {
      LoadReads(env, code, f, f');
      KnowsDrop(s, taint, f.stack, 1);
      assert f'.stack == f.stack[..|s| - 1] + [f'.stack[|s| - 1]];
    } else {
      StoreWrites(env, code, f, f');
      KnowsDrop(s, taint, f.stack, 2);
      assert f'.stack == f.stack[..|s| - 2];
    }
  }

  /** A block with a clean run is understood. */
  lemma {:induction false} CleanIsUnderstood<W(!new)>(
    env: Env<W>, code: seq<byte>, entry: nat, f: Frame<W>, taint: seq<bool>, s: seq<Const>)
    requires ValidEnv(env) && ValidFrame(f) && Knows(s, taint, f.stack) && CleanRun(env, code, entry, f, taint)
    ensures Scan(code, entry, f.pc, s).Some? && RunBlock(env, code, entry, f).Continue?
    decreases if f.pc < |code| then |code| - f.pc else 0
  {
    hide Handle, AbsStep, TaintAfter, Knows;
    assert |taint| == |f.stack| by { KnowsSizes(s, taint, f.stack); }
    if !AtBlockEnd(code, entry, f.pc) {
      HandleKeepsFrame(env, code, f);
      CleanStep(env, code, f, taint, s);
      CleanIsUnderstood(
        env, code, entry, Handle(env, code, f).frame, TaintAfter(code, f, taint).value, AbsStep(code, f.pc, s).stack);
    }
  }

  lemma KnowsSizes(s: seq<Const>, taint: seq<bool>, stack: seq<word>)
    requires Knows(s, taint, stack)
    ensures |s| == |taint| == |stack|
  {
  }

  /** A block that runs clean from an empty stack and makes two accesses is given a plan, for exactly those accesses. */
  lemma ConstantBlockIsPlanned<W(!new)>(env: Env<W>, code: seq<byte>, f: Frame<W>)
    requires ValidEnv(env) && ValidFrame(f) && f.stack == [] && CleanRun(env, code, f.pc, f, [])
    ensures Scan(code, f.pc, f.pc, []) == Some(DirectAccesses(env, code, f.pc, f))
  {
    hide Scan, CleanRun, DirectAccesses, RunBlock;
    CleanIsUnderstood(env, code, f.pc, f, [], []);
    AccessesArePlanned(env, code, f.pc, f, []);
  }
}
