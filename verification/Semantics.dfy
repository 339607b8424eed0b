/**
 One frame of the EVM: what each opcode does, and what it means to run a program charging
 every opcode before it executes.

 Stack, memory, control-flow and gas opcodes are written out. Every other opcode is a
 parameter of the environment: a plain handler is given the stack, the memory and the
 host's world but not the gas, and says how much extra gas it needs; a gas-sensitive
 handler (calls, creates, storage writes) also sees the gas.
 */
module Semantics {
  import opened Basics
  import opened Bytecode
  import opened PushDecoding
  import opened GasBlocks
  import opened MemoryGas

  const MAXSTACK: nat := 1024

  datatype Error =
    | OutOfGas | StackOverflow | StackUnderflow | InvalidInstruction
    | UndefinedInstruction | BadJumpDestination | StaticModeViolation | HostError

  datatype Frame<W> = Frame(pc: nat, stack: seq<word>, memory: seq<byte>, gas: nat, world: W)

  /** Result of a handler that does not look at the gas. */
  datatype Plain<W> =
    | PlainFail(error: Error)
    | PlainOk(dynamicGas: nat, stack: seq<word>, memory: seq<byte>, world: W)

  /** Result of a handler that depends on the gas left. */
  datatype Sensitive<W> =
    | SensitiveFail(error: Error)
    | SensitiveOk(gas: nat, stack: seq<word>, memory: seq<byte>, world: W)
    | SensitiveStop(gas: nat, world: W)

  datatype Env<!W> = Env(
    defined: seq<bool>,
    table: CostTable,
    callData: word -> word,
    plain: (byte, seq<word>, seq<byte>, W) -> Plain<W>,
    sensitive: (byte, seq<word>, seq<byte>, W, nat) -> Sensitive<W>)

  /** Opcodes whose handler is a gas-sensitive parameter. */
  predicate IsSensitive(op: int) {
    op == OP_SSTORE || op == OP_SELFDESTRUCT || (IsGasSensitiveTerminator(op) && op != OP_GAS)
  }

  ghost predicate PlainKeepsFrame<W(!new)>(env: Env<W>) {
    forall op, st, mem, w ::
      var r := env.plain(op, st, mem, w);
      r.PlainOk? && |st| <= MAXSTACK && WellSized(mem) ==> |r.stack| <= MAXSTACK && WellSized(r.memory)
  }

  ghost predicate SensitiveKeepsFrame<W(!new)>(env: Env<W>) {
    forall op, st, mem, w, g ::
      var r := env.sensitive(op, st, mem, w, g);
      && (r.SensitiveOk? ==> r.gas <= g && op != OP_SELFDESTRUCT)
      && (r.SensitiveOk? && |st| <= MAXSTACK && WellSized(mem) ==> |r.stack| <= MAXSTACK && WellSized(r.memory))
  }

  predicate ValidTable<W>(env: Env<W>) {
    |env.defined| == 256 && forall op :: 0 <= op < 256 && env.defined[op] ==> 0 <= env.table[op]
  }

  /**
   What the revision tables and the handlers provide: defined opcodes have a static cost,
   STOP is free, jumps are not, no handler creates gas or breaks the frame's limits, and
   SELFDESTRUCT ends the frame.
   Undefined opcodes may have any table entry.
   */
  ghost predicate ValidEnv<W(!new)>(env: Env<W>) {
    && ValidTable(env)
    && env.table[OP_STOP] == 0 && env.table[OP_JUMP] > 0 && env.table[OP_JUMPI] > 0
    && PlainKeepsFrame(env) && SensitiveKeepsFrame(env)
  }

  predicate ValidFrame<W>(f: Frame<W>) {
    |f.stack| <= MAXSTACK && WellSized(f.memory)
  }

  datatype Step<W> =
    | Continue(frame: Frame<W>)
    | Jumped(frame: Frame<W>)
    | Stop(frame: Frame<W>, output: seq<byte>)
    | Reverted(frame: Frame<W>, output: seq<byte>)
    | Fail(error: Error)

  /** The 32 bytes MSTORE writes, most significant first. */
  function StoreBe(v: nat, n: nat): (s: seq<byte>)
    ensures |s| == n
    decreases n
  {
    if n == 0 then [] else StoreBe(v / 256, n - 1) + [v % 256]
  }

  /** The `k`-th word from the top, 1 being the top. */
  function Peek(stack: seq<word>, k: nat): (w: word)
    requires 1 <= k <= |stack|
  {
    stack[|stack| - k]
  }

  function Drop(stack: seq<word>, k: nat): (s: seq<word>)
    requires k <= |stack|
  {
    stack[..|stack| - k]
  }

  function Pushed<W>(f: Frame<W>, v: word, len: nat): (r: Step<W>) {
    if |f.stack| >= MAXSTACK then Fail(StackOverflow)
    else Continue(f.(stack := f.stack + [v], pc := f.pc + len))
  }

  function Duplicated<W>(f: Frame<W>, n: nat): (r: Step<W>)
    requires 1 <= n
  {
    if |f.stack| < n then Fail(StackUnderflow)
    else if |f.stack| >= MAXSTACK then Fail(StackOverflow)
    else Continue(f.(stack := f.stack + [Peek(f.stack, n)], pc := f.pc + 1))
  }

  function Swapped<W>(f: Frame<W>, n: nat): (r: Step<W>)
    requires 1 <= n
  {
    if |f.stack| < n + 1 then Fail(StackUnderflow)
    else
      var top, nth := |f.stack| - 1, |f.stack| - 1 - n;
      Continue(f.(stack := f.stack[top := f.stack[nth]][nth := f.stack[top]], pc := f.pc + 1))
  }

  function Binary<W>(f: Frame<W>, v: word): (r: Step<W>)
    requires 2 <= |f.stack|
  {
    Continue(f.(stack := Drop(f.stack, 2) + [v], pc := f.pc + 1))
  }

  function JumpTo<W>(code: seq<byte>, f: Frame<W>, dest: word, stack: seq<word>): (r: Step<W>) {
    if ValidJumpDest(code, dest) then Jumped(f.(pc := dest, stack := stack)) else Fail(BadJumpDestination)
  }

  /** Bytes `offset..offset+size`, empty when the size is 0. */
  function Slice(memory: seq<byte>, offset: nat, size: nat): (s: seq<byte>)
    requires size != 0 ==> offset + size <= |memory|
  {
    if size == 0 then [] else memory[offset..offset + size]
  }

  function Expanded<W>(f: Frame<W>, offset: word, size: word): (r: Option<Memory>)
    requires ValidFrame(f)
    ensures r.Some? ==> WellSized(r.value.bytes) && (size != 0 ==> offset + size <= |r.value.bytes|)
    ensures r.Some? ==> r.value.gas <= f.gas
  {
    var m := Memory(f.memory, f.gas);
    CheckExpandExact(m, Access(offset, size));
    MemoryCostMonotone(|f.memory| / 32, |Grown(f.memory, Needs(Access(offset, size)))| / 32);
    CheckExpand(m, offset, size)
  }

  /** Memory with the low `width` bytes of `value` stored at `offset`. */
  function Written(bytes: seq<byte>, offset: nat, value: word, width: nat): (r: seq<byte>)
    requires offset + width <= |bytes|
    ensures |r| == |bytes|
  {
    bytes[..offset] + StoreBe(value, width) + bytes[offset + width..]
  }

  function MLoad<W>(f: Frame<W>): (r: Step<W>)
    requires ValidFrame(f)
  {
    if |f.stack| < 1 then Fail(StackUnderflow)
    else
      var offset := Peek(f.stack, 1);
      match Expanded(f, offset, 32)
      case None => Fail(OutOfGas)
      case Some(m) =>
        var bytes := Slice(m.bytes, offset, 32);
        PushFitsWord(bytes);
        Continue(f.(stack := Drop(f.stack, 1) + [BigEndian(bytes)], memory := m.bytes, gas := m.gas, pc := f.pc + 1))
  }

  function MStore<W>(f: Frame<W>, width: nat): (r: Step<W>)
    requires ValidFrame(f) && (width == 32 || width == 1)
  {
    if |f.stack| < 2 then Fail(StackUnderflow)
    else
      var offset, value := Peek(f.stack, 1), Peek(f.stack, 2);
      match Expanded(f, offset, width)
      case None => Fail(OutOfGas)
      case Some(m) =>
        var written := Written(m.bytes, offset, value, width);
        Continue(f.(stack := Drop(f.stack, 2), memory := written, gas := m.gas, pc := f.pc + 1))
  }

  function Return<W>(f: Frame<W>, revert: bool): (r: Step<W>)
    requires ValidFrame(f)
  {
    if |f.stack| < 2 then Fail(StackUnderflow)
    else
      var offset, size := Peek(f.stack, 1), Peek(f.stack, 2);
      match Expanded(f, offset, size)
      case None => Fail(OutOfGas)
      case Some(m) =>
        var f' := f.(stack := Drop(f.stack, 2), memory := m.bytes, gas := m.gas);
        var output := Slice(m.bytes, offset, size);
        if revert then Reverted(f', output) else Stop(f', output)
  }

  function RunPlain<W>(env: Env<W>, op: byte, f: Frame<W>): (r: Step<W>) {
    match env.plain(op, f.stack, f.memory, f.world)
    case PlainFail(e) => Fail(e)
    case PlainOk(dynamicGas, stack, memory, world) =>
      if f.gas < dynamicGas then Fail(OutOfGas)
      else Continue(Frame(f.pc + 1, stack, memory, f.gas - dynamicGas, world))
  }

  function RunSensitive<W>(env: Env<W>, op: byte, f: Frame<W>): (r: Step<W>) {
    match env.sensitive(op, f.stack, f.memory, f.world, f.gas)
    case SensitiveFail(e) => Fail(e)
    case SensitiveOk(gas, stack, memory, world) => Continue(Frame(f.pc + 1, stack, memory, gas, world))
    case SensitiveStop(gas, world) => Stop(f.(gas := gas, world := world), [])
  }

  /** The effect of the opcode at `pc`, static gas already paid. */
  function Handle<W>(env: Env<W>, code: seq<byte>, f: Frame<W>): (r: Step<W>)
    requires f.pc < |code| && ValidFrame(f)
  {
    var op := code[f.pc];
    if op == OP_STOP then Stop(f, [])
    else if op == OP_ADD then
      if |f.stack| < 2 then Fail(StackUnderflow)
      else Binary(f, (Peek(f.stack, 1) + Peek(f.stack, 2)) % TWO256)
    else if op == OP_SUB then
      if |f.stack| < 2 then Fail(StackUnderflow)
      else Binary(f, (Peek(f.stack, 1) - Peek(f.stack, 2)) % TWO256)
    else if op == OP_CALLDATALOAD then
      if |f.stack| < 1 then Fail(StackUnderflow)
      else Continue(f.(stack := Drop(f.stack, 1) + [env.callData(Peek(f.stack, 1))], pc := f.pc + 1))
    else if op == OP_POP then
      if |f.stack| < 1 then Fail(StackUnderflow)
      else Continue(f.(stack := Drop(f.stack, 1), pc := f.pc + 1))
    else if op == OP_MLOAD then MLoad(f)
    else if op == OP_MSTORE then MStore(f, 32)
    else if op == OP_MSTORE8 then MStore(f, 1)
    else if op == OP_JUMP then
      if |f.stack| < 1 then Fail(StackUnderflow)
      else JumpTo(code, f, Peek(f.stack, 1), Drop(f.stack, 1))
    else if op == OP_JUMPI then
      if |f.stack| < 2 then Fail(StackUnderflow)
      else if Peek(f.stack, 2) == 0 then Continue(f.(stack := Drop(f.stack, 2), pc := f.pc + 1))
      else JumpTo(code, f, Peek(f.stack, 1), Drop(f.stack, 2))
    else if op == OP_PC then Pushed(f, f.pc % TWO256, 1)
    else if op == OP_MSIZE then Pushed(f, |f.memory|, 1)
    else if op == OP_GAS then Pushed(f, f.gas % TWO256, 1)
    else if op == OP_JUMPDEST then Continue(f.(pc := f.pc + 1))
    else if op == OP_PUSH0 then Pushed(f, 0, 1)
    else if IsPush(op) then
      LoadPushValueCorrect(code, f.pc, op - OP_PUSH1 + 1);
      Pushed(f, PushImmediate(code, f.pc), OpcodeLen(op))
    else if OP_DUP1 <= op <= OP_DUP16 then Duplicated(f, op - OP_DUP1 + 1)
    else if OP_SWAP1 <= op <= OP_SWAP16 then Swapped(f, op - OP_SWAP1 + 1)
    else if op == OP_RETURN then Return(f, false)
    else if op == OP_REVERT then Return(f, true)
    else if op == OP_INVALID then Fail(InvalidInstruction)
    else if IsSensitive(op) then RunSensitive(env, op, f)
    else RunPlain(env, op, f)
  }

  /** One step of the fast path: nothing charged. */
  function NoGasStep<W>(env: Env<W>, code: seq<byte>, f: Frame<W>): (r: Step<W>)
    requires f.pc < |code| && ValidFrame(f) && ValidTable(env)
  {
    if !env.defined[code[f.pc]] then Fail(UndefinedInstruction) else Handle(env, code, f)
  }

  /** One step of the slow path: the opcode's static cost is charged first. */
  function ChargedStep<W>(env: Env<W>, code: seq<byte>, f: Frame<W>): (r: Step<W>)
    requires f.pc < |code| && ValidFrame(f) && ValidTable(env)
  {
    var op := code[f.pc];
    if !env.defined[op] then Fail(UndefinedInstruction)
    else if op == OP_STOP then Stop(f, [])
    else if op == OP_INVALID then Fail(InvalidInstruction)
    else
      var cost := env.table[op];
      if f.gas < cost then Fail(OutOfGas) else Handle(env, code, f.(gas := f.gas - cost))
  }

  /** `r` keeps the frame's limits, adds no gas, and moves to the next instruction or to a legal target. */
  predicate KeepsFrame<W>(code: seq<byte>, f: Frame<W>, r: Step<W>)
    requires f.pc < |code|
  {
    match r
    case Continue(f') => ValidFrame(f') && f'.gas <= f.gas && f'.pc == Next(code, f.pc)
    case Jumped(f') => ValidFrame(f') && f'.gas == f.gas && ValidJumpDest(code, f'.pc) && IsJump(code[f.pc])
    case _ => true
  }

  lemma PlainKeeps<W(!new)>(env: Env<W>, code: seq<byte>, f: Frame<W>)
    requires f.pc < |code| && ValidFrame(f) && ValidEnv(env) && !IsPush(code[f.pc])
    ensures KeepsFrame(code, f, RunPlain(env, code[f.pc], f))
  {
    var r := env.plain(code[f.pc], f.stack, f.memory, f.world);
  }

  lemma SensitiveKeeps<W(!new)>(env: Env<W>, code: seq<byte>, f: Frame<W>)
    requires f.pc < |code| && ValidFrame(f) && ValidEnv(env) && !IsPush(code[f.pc])
    ensures KeepsFrame(code, f, RunSensitive(env, code[f.pc], f))
  {
    var r := env.sensitive(code[f.pc], f.stack, f.memory, f.world, f.gas);
  }

  lemma MLoadKeeps<W>(code: seq<byte>, f: Frame<W>)
    requires f.pc < |code| && ValidFrame(f) && !IsPush(code[f.pc])
    ensures KeepsFrame(code, f, MLoad(f))
  {
    hide CheckExpand, BigEndian;
  }

  lemma MStoreKeeps<W>(code: seq<byte>, f: Frame<W>, width: nat)
    requires f.pc < |code| && ValidFrame(f) && !IsPush(code[f.pc]) && (width == 32 || width == 1)
    ensures KeepsFrame(code, f, MStore(f, width))
  {
    hide CheckExpand, Written;
  }

  /** No handler creates gas, breaks the frame's limits or goes anywhere but forward or to a legal target. */
  lemma HandleKeepsFrame<W(!new)>(env: Env<W>, code: seq<byte>, f: Frame<W>)
    requires f.pc < |code| && ValidFrame(f) && ValidEnv(env)
    ensures KeepsFrame(code, f, Handle(env, code, f))
  {
    hide MLoad, MStore, RunPlain, RunSensitive;
    if !IsPush(code[f.pc]) {
      PlainKeeps(env, code, f);
      SensitiveKeeps(env, code, f);
      MLoadKeeps(code, f);
      MStoreKeeps(code, f, 32);
      MStoreKeeps(code, f, 1);
    }
  }

  /** As `KeepsFrame`, and a taken jump costs gas. */
  predicate Progresses<W>(code: seq<byte>, f: Frame<W>, r: Step<W>)
    requires f.pc < |code|
  {
    match r
    case Continue(f') => ValidFrame(f') && f'.gas <= f.gas && f'.pc == Next(code, f.pc)
    case Jumped(f') => ValidFrame(f') && f'.gas < f.gas && ValidJumpDest(code, f'.pc)
    case _ => true
  }

  lemma ChargedStepProgresses<W(!new)>(env: Env<W>, code: seq<byte>, f: Frame<W>)
    requires f.pc < |code| && ValidFrame(f) && ValidEnv(env)
    ensures Progresses(code, f, ChargedStep(env, code, f))
  {
    hide Handle;
    var op := code[f.pc];
    if env.defined[op] && op != OP_STOP && op != OP_INVALID && f.gas >= env.table[op] {
      var paid := f.(gas := f.gas - env.table[op]);
      assert ChargedStep(env, code, f) == Handle(env, code, paid);
      HandleKeepsFrame(env, code, paid);
    }
  }

  datatype Outcome<W> =
    | Done(reverted: bool, output: seq<byte>, gas: nat, stack: seq<word>, memory: seq<byte>, world: W)
    | Exceptional(error: Error)

  function Finished<W>(f: Frame<W>, reverted: bool, output: seq<byte>): (o: Outcome<W>) {
    Done(reverted, output, f.gas, f.stack, f.memory, f.world)
  }

  /**
   Reference semantics: run charging each opcode. Running off the end is an implicit STOP.
   Termination is by gas, then by the bytes left: a taken jump costs gas and every other
   step moves forward.
   */
  ghost function PerOpcodeRun<W(!new)>(env: Env<W>, code: seq<byte>, f: Frame<W>): (o: Outcome<W>)
    requires ValidEnv(env) && ValidFrame(f)
    decreases f.gas, if f.pc < |code| then |code| - f.pc else 0
  {
    if f.pc >= |code| then Finished(f, false, [])
    else
      ChargedStepProgresses(env, code, f);
      match ChargedStep(env, code, f)
      case Continue(f') => PerOpcodeRun(env, code, f')
      case Jumped(f') => PerOpcodeRun(env, code, f')
      case Stop(f', output) => Finished(f', false, output)
      case Reverted(f', output) => Finished(f', true, output)
      case Fail(e) => Exceptional(e)
  }

  /** Same visible result; exceptional halts forfeit all gas and may differ in status code only. */
  predicate Corresponds<W(==)>(a: Outcome<W>, b: Outcome<W>) {
    a == b || (a.Exceptional? && b.Exceptional?)
  }
}
