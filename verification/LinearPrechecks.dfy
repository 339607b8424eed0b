/**
 The linear memory prechecks: a block that starts with the calldata word at 0 as a stride
 and then repeats "access the address, add the stride" is given one expansion to its last
 address. The theorems follow an execution of a matched block through any number of
 repetitions.
 */
module LinearPrechecks {
  import opened Basics
  import opened Bytecode
  import opened PushDecoding
  import opened MemoryGas
  import opened Semantics
  import opened Prechecks

  const OP_DUP2 := 0x81
  const MLOAD_MOTIF: seq<byte> := [OP_DUP1, OP_MLOAD, OP_POP, OP_DUP2, OP_ADD]
  const MSTORE_MOTIF: seq<byte> := [OP_DUP1, OP_DUP1, OP_MSTORE, OP_DUP2, OP_ADD]

  /** `strideStackIndex` counts from the top, the top being 0. */
  datatype LinearPlan = NoPlan | LinearPlan(coveredOpcode: byte, coveredDirectOps: nat, strideStackIndex: nat)

  /** A PUSH0 to PUSH8 that is not cut off and pushes zero. */
  predicate ZeroPushAt(code: seq<byte>, pc: nat) {
    pc < |code| && OP_PUSH0 <= code[pc] <= OP_PUSH0 + 8 &&
    var n := code[pc] - OP_PUSH0;
    pc + 1 + n <= |code| && BigEndian(code[pc + 1..pc + 1 + n]) == 0
  }

  method ConsumeZeroPush(code: seq<byte>, scanPc: nat) returns (next: Option<nat>)
    ensures next == if ZeroPushAt(code, scanPc) then Some(Next(code, scanPc)) else None
  {
    if scanPc >= |code| {
      return None;
    }
    var op := code[scanPc];
    if op == OP_PUSH0 {
      assert code[scanPc + 1..scanPc + 1] == [];
      return Some(scanPc + 1);
    }
    if op < OP_PUSH1 || op > OP_PUSH0 + 8 {
      return None;
    }
    var value := ParsePushConstU64(code, scanPc + 1, op - OP_PUSH0);
    if value.None? || value.value != 0 {
      return None;
    }
    return Some(scanPc + 1 + (op - OP_PUSH0));
  }

  /** Where the optional JUMPDEST leaves the scan. */
  function AfterJumpDest(code: seq<byte>, entry: nat): (pc: nat) {
    if entry < |code| && code[entry] == OP_JUMPDEST then entry + 1 else entry
  }

  /** A zero push, CALLDATALOAD and a zero push, after an optional JUMPDEST. */
  predicate PrefixAt(code: seq<byte>, entry: nat) {
    var a := AfterJumpDest(code, entry);
    && ZeroPushAt(code, a)
    && Next(code, a) < |code| && code[Next(code, a)] == OP_CALLDATALOAD
    && ZeroPushAt(code, Next(code, a) + 1)
  }

  function AfterPrefix(code: seq<byte>, entry: nat): (pc: nat)
    requires PrefixAt(code, entry)
    ensures entry < pc <= |code|
  {
    Next(code, Next(code, AfterJumpDest(code, entry)) + 1)
  }

  method ConsumeLinearRecurrencePrefix(code: seq<byte>, entry: nat) returns (next: Option<nat>)
    ensures next == if PrefixAt(code, entry) then Some(AfterPrefix(code, entry)) else None
  {
    var pc := entry;
    if pc < |code| && code[pc] == OP_JUMPDEST {
      pc := pc + 1;
    }
    var first := ConsumeZeroPush(code, pc);
    if first.None? || first.value >= |code| || code[first.value] != OP_CALLDATALOAD {
      return None;
    }
    next := ConsumeZeroPush(code, first.value + 1);
  }

  predicate MotifAt(code: seq<byte>, pc: nat, motif: seq<byte>) {
    pc + |motif| <= |code| && forall i :: 0 <= i < |motif| ==> code[pc + i] == motif[i]
  }

  predicate ScanEnds(code: seq<byte>, pc: nat) {
    pc >= |code| || code[pc] == OP_JUMPDEST || IsBlockTerminator(code[pc])
  }

  /** How many copies of `motif` fill the block from `pc` on; `None` if something else is there. */
  function Motifs(code: seq<byte>, pc: nat, motif: seq<byte>): (n: Option<nat>)
    requires motif != []
    ensures n.Some? ==> n.value <= |code|
    ensures n.Some? && pc <= |code| ==> n.value <= |code| - pc
    decreases if pc < |code| then |code| - pc else 0
  {
    if ScanEnds(code, pc) then Some(0)
    else if !MotifAt(code, pc, motif) then None
    else
      match Motifs(code, pc + |motif|, motif)
      case None => None
      case Some(n) => Some(n + 1)
  }

  /** Consume the opcodes of `motif` one by one. */
  method ConsumeMotif(code: seq<byte>, scanPc: nat, motif: seq<byte>) returns (next: Option<nat>)
    requires scanPc <= |code|
    ensures next == if MotifAt(code, scanPc, motif) then Some(scanPc + |motif|) else None
  {
    var motifPc := scanPc;
    while motifPc < scanPc + |motif|
      invariant scanPc <= motifPc <= scanPc + |motif| && motifPc <= |code|
      invariant forall k :: scanPc <= k < motifPc ==> code[k] == motif[k - scanPc]
    {
      if motifPc >= |code| || code[motifPc] != motif[motifPc - scanPc] {
        return None;
      }
      motifPc := motifPc + 1;
    }
    return Some(motifPc);
  }

  /** The scanning loop shared by the two analysers. */
  method CountMotifs(code: seq<byte>, pc: nat, motif: seq<byte>) returns (n: Option<nat>)
    requires motif != []
    ensures n == Motifs(code, pc, motif)
  {
    hide MotifAt;
    var count, scanPc: nat := 0, pc;
    while !ScanEnds(code, scanPc)
      invariant Motifs(code, pc, motif) ==
                (if Motifs(code, scanPc, motif).None? then None else Some(count + Motifs(code, scanPc, motif).value))
      decreases if scanPc < |code| then |code| - scanPc else 0
    {
      var next := ConsumeMotif(code, scanPc, motif);
      if next.None? {
        return None;
      }
      count := count + 1;
      scanPc := next.value;
    }
    return Some(count);
  }

  /** What a plan says of the block: the prefix, then at least two copies of the motif and nothing else. */
  predicate Matches(code: seq<byte>, entry: nat, motif: seq<byte>, n: nat)
    requires motif != []
  {
    PrefixAt(code, entry) && n >= 2 && Motifs(code, AfterPrefix(code, entry), motif) == Some(n)
  }

  method AnalyzeLinearDirectMemoryBlockPrecheck(code: seq<byte>, entry: nat) returns (plan: LinearPlan)
    ensures plan.LinearPlan? ==>
              || (plan.coveredOpcode == OP_MLOAD && plan.strideStackIndex == 2
                  && Matches(code, entry, MLOAD_MOTIF, plan.coveredDirectOps))
              || (plan.coveredOpcode == OP_MSTORE && plan.strideStackIndex == 3
                  && Matches(code, entry, MSTORE_MOTIF, plan.coveredDirectOps))
    ensures plan.NoPlan? ==>
              forall n: nat :: !Matches(code, entry, MLOAD_MOTIF, n) && !Matches(code, entry, MSTORE_MOTIF, n)
  {
    var start := ConsumeLinearRecurrencePrefix(code, entry);
    if start.None? {
      return NoPlan;
    }
    var loads := CountMotifs(code, start.value, MLOAD_MOTIF);
    if loads.Some? && loads.value >= 2 {
      return LinearPlan(OP_MLOAD, loads.value, 2);
    }
    var stores := CountMotifs(code, start.value, MSTORE_MOTIF);
    if stores.Some? && stores.value >= 2 {
      return LinearPlan(OP_MSTORE, stores.value, 3);
    }
    return NoPlan;
  }

  /** The frames in which an execution of the block meets its direct accesses, in order. */
  ghost function AccessFrames<W(!new)>(env: Env<W>, code: seq<byte>, entry: nat, f: Frame<W>): (fs: seq<Frame<W>>)
    requires ValidEnv(env) && ValidFrame(f)
    decreases if f.pc < |code| then |code| - f.pc else 0
  {
    if AtBlockEnd(code, entry, f.pc) then []
    else
      HandleKeepsFrame(env, code, f);
      var r := Handle(env, code, f);
      var here := if IsDirect(code[f.pc]) then [f] else [];
      if r.Continue? then here + AccessFrames(env, code, entry, r.frame) else here
  }

  /** One instruction of the block that goes on to `g`. */
  lemma Goes<W(!new)>(env: Env<W>, code: seq<byte>, entry: nat, need: nat, f: Frame<W>, g: Frame<W>)
    requires ValidEnv(env) && ValidFrame(f) && !AtBlockEnd(code, entry, f.pc) && Handle(env, code, f) == Continue(g)
    ensures ValidFrame(g) && RunBlock(env, code, entry, f) == RunBlock(env, code, entry, g)
    ensures AccessFrames(env, code, entry, f)
            == (if IsDirect(code[f.pc]) then [f] else []) + AccessFrames(env, code, entry, g)
    ensures !IsDirect(code[f.pc]) ==>
              && RunPrechecked(env, code, entry, need, f) == RunPrechecked(env, code, entry, need, g)
              && AccessFrames(env, code, entry, f) == AccessFrames(env, code, entry, g)
  {
    hide Handle;
    HandleKeepsFrame(env, code, f);
    assert [] + AccessFrames(env, code, entry, g) == AccessFrames(env, code, entry, g);
  }

  /** One instruction of the block that fails. */
  lemma Fails<W(!new)>(env: Env<W>, code: seq<byte>, entry: nat, need: nat, f: Frame<W>)
    requires ValidEnv(env) && ValidFrame(f) && !AtBlockEnd(code, entry, f.pc) && Handle(env, code, f).Fail?
    ensures RunBlock(env, code, entry, f).Fail?
    ensures AccessFrames(env, code, entry, f) == if IsDirect(code[f.pc]) then [f] else []
    ensures !IsDirect(code[f.pc]) ==> RunPrechecked(env, code, entry, need, f).Fail?
  {
    hide Handle;
  }

  /** `addr` plus the stride, as ADD computes it. */
  function Advanced(addr: word, stride: word): (r: word) {
    (addr + stride) % TWO256
  }

  datatype Kind = Load | Store

  function MotifOf(k: Kind): (motif: seq<byte>) {
    if k.Load? then MLOAD_MOTIF else MSTORE_MOTIF
  }

  /** How many instructions of the motif precede its access. */
  function Lead(k: Kind): (n: nat) {
    if k.Load? then 1 else 2
  }

  /** The frame in which the motif's access is made: one or two more copies of the address on the stack. */
  function AtAccess<W>(k: Kind, f: Frame<W>, base: seq<word>, stride: word, addr: word): (at: Frame<W>) {
    f.(pc := f.pc + Lead(k), stack := base + [stride, addr] + (if k.Load? then [addr] else [addr, addr]))
  }

  /** The frame after the motif: the address has moved by the stride; MSTORE has stored the old address at itself. */
  function AfterMotif<W>(k: Kind, f: Frame<W>, base: seq<word>, stride: word, addr: word, m: Memory): (g: Frame<W>)
    requires addr + 32 <= |m.bytes|
  {
    f.(pc := f.pc + 5, stack := base + [stride, Advanced(addr, stride)],
       memory := if k.Load? then m.bytes else Written(m.bytes, addr, addr, 32), gas := m.gas)
  }

  lemma MotifBytes(code: seq<byte>, pc: nat, k: Kind)
    requires MotifAt(code, pc, MotifOf(k))
    ensures pc + 5 <= |code|
    ensures code[pc] == OP_DUP1 && code[pc + 3] == OP_DUP2 && code[pc + 4] == OP_ADD
    ensures if k.Load? then code[pc + 1] == OP_MLOAD && code[pc + 2] == OP_POP
            else code[pc + 1] == OP_DUP1 && code[pc + 2] == OP_MSTORE
  {
    assert code[pc] == MotifOf(k)[0] && code[pc + 1] == MotifOf(k)[1] && code[pc + 2] == MotifOf(k)[2];
    assert code[pc + 3] == MotifOf(k)[3] && code[pc + 4] == MotifOf(k)[4];
  }

  lemma DupGoes<W(!new)>(env: Env<W>, code: seq<byte>, entry: nat, need: nat, f: Frame<W>, n: nat)
    requires ValidEnv(env) && ValidFrame(f) && f.pc < |code| && 1 <= n <= 16 && code[f.pc] == OP_DUP1 + n - 1 && n <= |f.stack|
    ensures if |f.stack| >= MAXSTACK then
              && RunBlock(env, code, entry, f).Fail? && AccessFrames(env, code, entry, f) == []
              && RunPrechecked(env, code, entry, need, f).Fail?
            else
              var g := f.(pc := f.pc + 1, stack := f.stack + [Peek(f.stack, n)]);
              && ValidFrame(g) && RunBlock(env, code, entry, f) == RunBlock(env, code, entry, g)
              && AccessFrames(env, code, entry, f) == AccessFrames(env, code, entry, g)
              && RunPrechecked(env, code, entry, need, f) == RunPrechecked(env, code, entry, need, g)
  {
    hide RunBlock, AccessFrames, RunPrechecked, MLoad, MStore, RunPlain, RunSensitive, Return;
    if |f.stack| >= MAXSTACK {
      Fails(env, code, entry, need, f);
    } else {
      Goes(env, code, entry, need, f, f.(pc := f.pc + 1, stack := f.stack + [Peek(f.stack, n)]));
    }
  }

  /** The instructions before the access: they reach it, or the stack overflows. */
  lemma ReachAccess<W(!new)>(
    k: Kind, env: Env<W>, code: seq<byte>, entry: nat, need: nat, f: Frame<W>, base: seq<word>, stride: word, addr: word)
    requires ValidEnv(env) && ValidFrame(f) && MotifAt(code, f.pc, MotifOf(k)) && f.stack == base + [stride, addr]
    ensures var at := AtAccess(k, f, base, stride, addr);
            if |f.stack| + Lead(k) > MAXSTACK then
              && RunBlock(env, code, entry, f).Fail? && AccessFrames(env, code, entry, f) == []
              && RunPrechecked(env, code, entry, need, f).Fail?
            else
              && ValidFrame(at) && RunBlock(env, code, entry, f) == RunBlock(env, code, entry, at)
              && AccessFrames(env, code, entry, f) == AccessFrames(env, code, entry, at)
              && RunPrechecked(env, code, entry, need, f) == RunPrechecked(env, code, entry, need, at)
  {
    hide RunBlock, AccessFrames, RunPrechecked, MotifAt;
    MotifBytes(code, f.pc, k);
    DupGoes(env, code, entry, need, f, 1);
    if |f.stack| < MAXSTACK {
      var one := f.(pc := f.pc + 1, stack := base + [stride, addr, addr]);
      assert f.stack + [addr] == one.stack;
      if k.Store? {
        DupGoes(env, code, entry, need, one, 1);
        assert one.stack + [addr] == AtAccess(k, f, base, stride, addr).stack;
      } else {
        assert one.stack == AtAccess(k, f, base, stride, addr).stack;
      }
    }
  }

  /** DUP2 ADD moves the address on. */
  lemma AdvanceGoes<W(!new)>(env: Env<W>, code: seq<byte>, entry: nat, f: Frame<W>, base: seq<word>, stride: word, addr: word)
    requires ValidEnv(env) && ValidFrame(f) && f.stack == base + [stride, addr] && |f.stack| < MAXSTACK
    requires f.pc + 1 < |code| && code[f.pc] == OP_DUP2 && code[f.pc + 1] == OP_ADD
    ensures var g := f.(pc := f.pc + 2, stack := base + [stride, Advanced(addr, stride)]);
            && ValidFrame(g) && RunBlock(env, code, entry, f) == RunBlock(env, code, entry, g)
            && AccessFrames(env, code, entry, f) == AccessFrames(env, code, entry, g)
  {
    hide RunBlock, AccessFrames, RunPrechecked;
    DupGoes(env, code, entry, 0, f, 2);
    var mid := f.(pc := f.pc + 1, stack := f.stack + [stride]);
    var g := f.(pc := f.pc + 2, stack := base + [stride, Advanced(addr, stride)]);
    assert Drop(mid.stack, 2) + [Advanced(addr, stride)] == g.stack;
    assert Handle(env, code, mid) == Binary(mid, Advanced(addr, stride));
    Goes(env, code, entry, 0, mid, g);
  }

  /** From the access to the end of the motif. */
  lemma FromAccess<W(!new)>(
    k: Kind, env: Env<W>, code: seq<byte>, entry: nat, f: Frame<W>, base: seq<word>, stride: word, addr: word)
    requires ValidEnv(env) && ValidFrame(f) && MotifAt(code, f.pc, MotifOf(k)) && f.stack == base + [stride, addr]
    requires |f.stack| + Lead(k) <= MAXSTACK
    ensures var at, m := AtAccess(k, f, base, stride, addr), Expanded(f, addr, 32);
            var r, fs := RunBlock(env, code, entry, at), AccessFrames(env, code, entry, at);
            if m.None? then r.Fail? && fs == [at]
            else
              var g := AfterMotif(k, f, base, stride, addr, m.value);
              && ValidFrame(g) && r == RunBlock(env, code, entry, g)
              && fs == [at] + AccessFrames(env, code, entry, g)
  {
    hide RunBlock, AccessFrames, RunPrechecked, CheckExpand, BigEndian, Written, MotifAt;
    MotifBytes(code, f.pc, k);
    var at, m := AtAccess(k, f, base, stride, addr), Expanded(f, addr, 32);
    assert Expanded(at, addr, 32) == m;
    assert Handle(env, code, at) == if k.Load? then MLoad(at) else MStore(at, 32);
    if m.None? {
      Fails(env, code, entry, 0, at);
    } else {
      var after := Handle(env, code, at).frame;
      Goes(env, code, entry, 0, at, after);
      if k.Load? {
        PopGoes(env, code, entry, after, base + [stride, addr]);
      }
      var back := after.(pc := f.pc + 3, stack := base + [stride, addr]);
      assert back == if k.Load? then back else after;
      AdvanceGoes(env, code, entry, back, base, stride, addr);
    }
  }

  lemma PopGoes<W(!new)>(env: Env<W>, code: seq<byte>, entry: nat, f: Frame<W>, below: seq<word>)
    requires ValidEnv(env) && ValidFrame(f) && f.pc < |code| && code[f.pc] == OP_POP && |f.stack| >= 1 && Drop(f.stack, 1) == below
    ensures var g := f.(pc := f.pc + 1, stack := below);
            && ValidFrame(g) && RunBlock(env, code, entry, f) == RunBlock(env, code, entry, g)
            && AccessFrames(env, code, entry, f) == AccessFrames(env, code, entry, g)
  {
    hide RunBlock, AccessFrames, RunPrechecked;
    Goes(env, code, entry, 0, f, f.(pc := f.pc + 1, stack := below));
  }

  /** The address of the `i`-th access. */
  function LinearAddress(i: nat, stride: word): (a: word) {
    (i * stride) % TWO256
  }

  lemma NextLinearAddress(i: nat, stride: word)
    ensures Advanced(LinearAddress(i, stride), stride) == LinearAddress(i + 1, stride)
  {
    assert (i + 1) * stride == i * stride + stride;
    ModAddTo(i * stride, stride);
  }

  lemma ModAddTo(a: nat, b: nat)
    ensures (a % TWO256 + b) % TWO256 == (a + b) % TWO256
  {
  }

  /** The access frame of the `i`-th repetition: its address on top and the stride in the planned slot. */
  predicate LinearAccess<W>(k: Kind, at: Frame<W>, stride: word, i: nat) {
    var slot := if k.Load? then 2 else 3;
    && |at.stack| > slot
    && Peek(at.stack, 1) == LinearAddress(i, stride)
    && Peek(at.stack, slot + 1) == stride
  }

  /** All accesses of the rest of the block, `i` repetitions having been made. */
  ghost predicate LinearAccesses<W>(k: Kind, frames: seq<Frame<W>>, stride: word, i: nat) {
    forall j: nat :: j < |frames| ==> LinearAccess(k, frames[j], stride, i + j)
  }

  lemma LinearAccessesCons<W>(k: Kind, at: Frame<W>, rest: seq<Frame<W>>, stride: word, i: nat)
    requires LinearAccess(k, at, stride, i) && LinearAccesses(k, rest, stride, i + 1)
    ensures LinearAccesses(k, [at] + rest, stride, i)
  {
    forall j: nat | j < |[at] + rest|
      ensures LinearAccess(k, ([at] + rest)[j], stride, i + j)
    {
      if j > 0 {
        assert ([at] + rest)[j] == rest[j - 1] && LinearAccess(k, rest[j - 1], stride, i + 1 + (j - 1));
      }
    }
  }

  /** The addresses of repetitions `i` up to `i + n` are all within the memory limit. */
  ghost predicate AddressesFit(stride: word, i: nat, n: nat) {
    forall j: nat :: i <= j < i + n ==> LinearAddress(j, stride) + 32 <= MAX_REQUIRED_MEMORY_SIZE
  }

  /** One repetition: it fails at or before its access, or goes on to the next with the address advanced. */
  lemma OneMotif<W(!new)>(k: Kind, env: Env<W>, code: seq<byte>, entry: nat, f: Frame<W>, base: seq<word>, stride: word, i: nat)
    returns (at: Frame<W>, g: Frame<W>)
    requires ValidEnv(env) && ValidFrame(f) && f.stack == base + [stride, LinearAddress(i, stride)]
    requires MotifAt(code, f.pc, MotifOf(k))
    ensures ValidFrame(g) && LinearAccess(k, at, stride, i)
    ensures var r, fs := RunBlock(env, code, entry, f), AccessFrames(env, code, entry, f);
            || (r.Fail? && (fs == [] || fs == [at]))
            || (&& g.pc == f.pc + 5 && g.stack == base + [stride, LinearAddress(i + 1, stride)]
                && r == RunBlock(env, code, entry, g) && fs == [at] + AccessFrames(env, code, entry, g)
                && LinearAddress(i, stride) + 32 <= MAX_REQUIRED_MEMORY_SIZE)
  {
    hide RunBlock, AccessFrames, RunPrechecked, Handle, CheckExpand, Written, MotifAt, LinearAddress;
    var addr := LinearAddress(i, stride);
    at, g := AtAccess(k, f, base, stride, addr), f;
    ReachAccess(k, env, code, entry, 0, f, base, stride, addr);
    if |f.stack| + Lead(k) <= MAXSTACK {
      FromAccess(k, env, code, entry, f, base, stride, addr);
      var m := Expanded(f, addr, 32);
      if m.Some? {
        g := AfterMotif(k, f, base, stride, addr, m.value);
        NextLinearAddress(i, stride);
      }
    }
  }

  /** Every repetition accesses the next multiple of the stride, and a completed block makes them all. */
  lemma {:induction false} MotifsRun<W(!new)>(
    k: Kind, env: Env<W>, code: seq<byte>, entry: nat, f: Frame<W>, base: seq<word>, stride: word, i: nat)
    requires ValidEnv(env) && ValidFrame(f) && entry < f.pc && f.stack == base + [stride, LinearAddress(i, stride)]
    requires Motifs(code, f.pc, MotifOf(k)).Some?
    ensures var n, r, fs := Motifs(code, f.pc, MotifOf(k)).value, RunBlock(env, code, entry, f), AccessFrames(env, code, entry, f);
            && (r.Continue? || r.Fail?) && |fs| <= n && LinearAccesses(k, fs, stride, i)
            && (r.Continue? ==> |fs| == n && AddressesFit(stride, i, n))
    decreases if f.pc < |code| then |code| - f.pc else 0
  {
    hide RunBlock, AccessFrames, RunPrechecked, MotifAt, LinearAddress, LinearAccess, LinearAccesses, AddressesFit;
    if ScanEnds(code, f.pc) {
      BlockEnds(k, env, code, entry, f, stride, i);
    } else {
      var at, g := OneMotif(k, env, code, entry, f, base, stride, i);
      var r, fs := RunBlock(env, code, entry, f), AccessFrames(env, code, entry, f);
      FewAccesses(k, at, stride, i);
      if !(r.Fail? && (fs == [] || fs == [at])) {
        MotifsRun(k, env, code, entry, g, base, stride, i + 1);
        LinearAccessesCons(k, at, AccessFrames(env, code, entry, g), stride, i);
        if r.Continue? {
          AddressesFitCons(stride, i, Motifs(code, g.pc, MotifOf(k)).value);
        }
      }
    }
  }

  lemma BlockEnds<W(!new)>(k: Kind, env: Env<W>, code: seq<byte>, entry: nat, f: Frame<W>, stride: word, i: nat)
    requires ValidEnv(env) && ValidFrame(f) && entry < f.pc && ScanEnds(code, f.pc)
    ensures RunBlock(env, code, entry, f) == Continue(f) && AccessFrames(env, code, entry, f) == []
    ensures LinearAccesses(k, AccessFrames(env, code, entry, f), stride, i) && AddressesFit(stride, i, 0)
  {
  }

  lemma FewAccesses<W>(k: Kind, at: Frame<W>, stride: word, i: nat)
    requires LinearAccess(k, at, stride, i)
    ensures LinearAccesses(k, [at], stride, i) && LinearAccesses<W>(k, [], stride, i)
  {
  }

  lemma AddressesFitCons(stride: word, i: nat, n: nat)
    requires LinearAddress(i, stride) + 32 <= MAX_REQUIRED_MEMORY_SIZE && AddressesFit(stride, i + 1, n)
    ensures AddressesFit(stride, i, n + 1)
  {
  }

  /** The prefix pushes the stride and a zero, or the stack overflows; it makes no access. */
  lemma LoadsCallData<W(!new)>(env: Env<W>, code: seq<byte>, f: Frame<W>, base: seq<word>)
    requires ValidEnv(env) && ValidFrame(f) && f.pc < |code| && code[f.pc] == OP_CALLDATALOAD && f.stack == base + [0]
    ensures Handle(env, code, f) == Continue(f.(pc := f.pc + 1, stack := base + [env.callData(0)]))
  {
    assert Drop(f.stack, 1) == base;
  }

  lemma PrefixRun<W(!new)>(env: Env<W>, code: seq<byte>, need: nat, f: Frame<W>)
    requires ValidEnv(env) && ValidFrame(f) && PrefixAt(code, f.pc)
    ensures var g := f.(pc := AfterPrefix(code, f.pc), stack := f.stack + [env.callData(0), 0]);
            if |f.stack| + 2 > MAXSTACK then
              && RunBlock(env, code, f.pc, f).Fail? && AccessFrames(env, code, f.pc, f) == []
              && RunPrechecked(env, code, f.pc, need, f).Fail?
            else
              && ValidFrame(g) && RunBlock(env, code, f.pc, f) == RunBlock(env, code, f.pc, g)
              && AccessFrames(env, code, f.pc, f) == AccessFrames(env, code, f.pc, g)
              && RunPrechecked(env, code, f.pc, need, f) == RunPrechecked(env, code, f.pc, need, g)
  {
    hide RunBlock, AccessFrames, RunPrechecked, ZeroPushAt, ValidEnv;
    var entry, a := f.pc, f.(pc := AfterJumpDest(code, f.pc));
    if code[entry] == OP_JUMPDEST {
      Goes(env, code, entry, need, f, a);
    }
    ZeroPushGoes(env, code, entry, need, a);
    if |f.stack| < MAXSTACK {
      var b := a.(pc := Next(code, a.pc), stack := f.stack + [0]);
      var c := b.(pc := b.pc + 1, stack := f.stack + [env.callData(0)]);
      LoadsCallData(env, code, b, f.stack);
      Goes(env, code, entry, need, b, c);
      ZeroPushGoes(env, code, entry, need, c);
      assert c.stack + [0] == f.stack + [env.callData(0), 0];
    }
  }

  lemma ZeroPushGoes<W(!new)>(env: Env<W>, code: seq<byte>, entry: nat, need: nat, f: Frame<W>)
    requires ValidEnv(env) && ValidFrame(f) && ZeroPushAt(code, f.pc)
    ensures f.pc < |code|
    ensures if |f.stack| >= MAXSTACK then
              && RunBlock(env, code, entry, f).Fail? && AccessFrames(env, code, entry, f) == []
              && RunPrechecked(env, code, entry, need, f).Fail?
            else
              var g := f.(pc := Next(code, f.pc), stack := f.stack + [0]);
              && ValidFrame(g) && RunBlock(env, code, entry, f) == RunBlock(env, code, entry, g)
              && AccessFrames(env, code, entry, f) == AccessFrames(env, code, entry, g)
              && RunPrechecked(env, code, entry, need, f) == RunPrechecked(env, code, entry, need, g)
  {
    hide RunBlock, AccessFrames, RunPrechecked;
    var n := code[f.pc] - OP_PUSH0;
    if n > 0 {
      assert ImmediateBytes(code, f.pc, n) == code[f.pc + 1..f.pc + 1 + n];
    }
    assert Handle(env, code, f) == Pushed(f, 0, 1 + n);
    if |f.stack| >= MAXSTACK {
      Fails(env, code, entry, need, f);
    } else {
      Goes(env, code, entry, need, f, f.(pc := Next(code, f.pc), stack := f.stack + [0]));
    }
  }

  /** One instruction of the scan that is not MSIZE. */
  lemma ScanGoes(code: seq<byte>, entry: nat, pc: nat, s: seq<Const>, t: seq<Const>, a: Option<Access>, seen: nat, need: nat)
    requires !AtBlockEnd(code, entry, pc) && code[pc] != OP_MSIZE && AbsStep(code, pc, s) == Accept(t, a) && Next(code, pc) == pc + 1
    ensures var rest := Scan(code, entry, pc + 1, t);
            Scan(code, entry, pc, s) == if rest.None? then None else Some(Opt(a) + rest.value)
    ensures MsizeStable(code, entry, pc, s, seen, need) == MsizeStable(code, entry, pc + 1, t, Seen(seen, a), need)
  {
    hide AbsStep;
  }

  /** As `ScanGoes`, for an instruction without an access. */
  lemma ScanPasses(code: seq<byte>, entry: nat, pc: nat, s: seq<Const>, t: seq<Const>, seen: nat, need: nat)
    requires !AtBlockEnd(code, entry, pc) && code[pc] != OP_MSIZE && AbsStep(code, pc, s) == Accept(t, None) && Next(code, pc) == pc + 1
    ensures Scan(code, entry, pc, s) == Scan(code, entry, pc + 1, t)
    ensures MsizeStable(code, entry, pc, s, seen, need) == MsizeStable(code, entry, pc + 1, t, seen, need)
  {
    ScanGoes(code, entry, pc, s, t, None, seen, need);
    hide AbsStep, Scan;
    var rest := Scan(code, entry, pc + 1, t);
    if rest.Some? {
      assert [] + rest.value == rest.value;
    }
  }

  /** With the stride and the address known, the scan of a motif records its access and advances the address. */
  lemma MotifScan(k: Kind, code: seq<byte>, entry: nat, pc: nat, stride: word, addr: word, seen: nat, need: nat)
    requires MotifAt(code, pc, MotifOf(k)) && addr + 32 < TWO64
    ensures var s, s' := [Known(stride), Known(addr)], [Known(stride), AddConst(Known(stride), Known(addr))];
            var rest := Scan(code, entry, pc + 5, s');
            && Scan(code, entry, pc, s) == (if rest.None? then None else Some([Access(addr, 32)] + rest.value))
            && MsizeStable(code, entry, pc, s, seen, need) == MsizeStable(code, entry, pc + 5, s', Max(seen, addr + 32), need)
  {
    MotifBytes(code, pc, k);
    hide MotifAt, Scan, MsizeStable;
    var S, A := Known(stride), Known(addr);
    var s0, s1, s2, s3, s4 := [S, A], [S, A, A], [S, A, A, A], [S, A, Unknown], [S, A, S];
    var s5 := [S, AddConst(S, A)];
    var seen' := Max(seen, addr + 32);
    assert AbsStep(code, pc, s0) == Accept(s1, None);
    ScanPasses(code, entry, pc, s0, s1, seen, need);
    assert AbsStep(code, pc + 3, s0) == Accept(s4, None);
    ScanPasses(code, entry, pc + 3, s0, s4, seen', need);
    assert Below(s4, 2) + [AddConst(S, A)] == s5;
    assert AbsStep(code, pc + 4, s4) == Accept(s5, None);
    ScanPasses(code, entry, pc + 4, s4, s5, seen', need);
    if k.Load? {
      MotifScanLoad(code, entry, pc, stride, addr, seen, need);
    } else {
      MotifScanStore(code, entry, pc, stride, addr, seen, need);
    }
  }

  lemma MotifScanLoad(code: seq<byte>, entry: nat, pc: nat, stride: word, addr: word, seen: nat, need: nat)
    requires pc + 5 <= |code| && code[pc + 1] == OP_MLOAD && code[pc + 2] == OP_POP && addr + 32 < TWO64
    ensures var s1, s0 := [Known(stride), Known(addr), Known(addr)], [Known(stride), Known(addr)];
            var rest := Scan(code, entry, pc + 3, s0);
            && Scan(code, entry, pc + 1, s1) == (if rest.None? then None else Some([Access(addr, 32)] + rest.value))
            && MsizeStable(code, entry, pc + 1, s1, seen, need) == MsizeStable(code, entry, pc + 3, s0, Max(seen, addr + 32), need)
  {
    hide Scan, MsizeStable;
    var S, A := Known(stride), Known(addr);
    var s0, s1, s2 := [S, A], [S, A, A], [S, A, Unknown];
    assert Below(s1, 1) + [Unknown] == s2 && Below(s2, 1) == s0;
    assert AbsStep(code, pc + 1, s1) == Accept(s2, Some(Access(addr, 32)));
    ScanGoes(code, entry, pc + 1, s1, s2, Some(Access(addr, 32)), seen, need);
    assert AbsStep(code, pc + 2, s2) == Accept(s0, None);
    ScanPasses(code, entry, pc + 2, s2, s0, Max(seen, addr + 32), need);
  }

  lemma MotifScanStore(code: seq<byte>, entry: nat, pc: nat, stride: word, addr: word, seen: nat, need: nat)
    requires pc + 5 <= |code| && code[pc + 1] == OP_DUP1 && code[pc + 2] == OP_MSTORE && addr + 32 < TWO64
    ensures var s1, s0 := [Known(stride), Known(addr), Known(addr)], [Known(stride), Known(addr)];
            var rest := Scan(code, entry, pc + 3, s0);
            && Scan(code, entry, pc + 1, s1) == (if rest.None? then None else Some([Access(addr, 32)] + rest.value))
            && MsizeStable(code, entry, pc + 1, s1, seen, need) == MsizeStable(code, entry, pc + 3, s0, Max(seen, addr + 32), need)
  {
    hide Scan, MsizeStable;
    var S, A := Known(stride), Known(addr);
    var s0, s1, s2 := [S, A], [S, A, A], [S, A, A, A];
    assert AbsStep(code, pc + 1, s1) == Accept(s2, None);
    ScanPasses(code, entry, pc + 1, s1, s2, seen, need);
    assert Below(s2, 2) + [] == s0;
    assert AbsStep(code, pc + 2, s2) == Accept(s0, Some(Access(addr, 32)));
    ScanGoes(code, entry, pc + 2, s2, s0, Some(Access(addr, 32)), seen, need);
  }

  /** The address of the `i`-th access before it wraps. */
  function Offset(stride: nat, i: nat): (a: nat) {
    i * stride
  }

  /** The need of the last of `n` repetitions starting with the `i`-th. */
  function LastNeed(stride: nat, i: nat, n: nat): (need: nat) {
    if n == 0 then 0 else Offset(stride, i + n - 1) + 32
  }

  /** The scan of a matched block within the limits: its largest need is the last one. */
  lemma {:induction false} ScanMotifs(k: Kind, code: seq<byte>, entry: nat, pc: nat, stride: word, i: nat, c: Const, seen: nat, need: nat)
    requires entry < pc && Motifs(code, pc, MotifOf(k)).Some?
    requires var n := Motifs(code, pc, MotifOf(k)).value;
             LastNeed(stride, i, n) <= MAX_REQUIRED_MEMORY_SIZE && (n > 0 ==> c.Known? && c.value == Offset(stride, i))
    ensures var s := [Known(stride), c];
            && Scan(code, entry, pc, s).Some? && MsizeStable(code, entry, pc, s, seen, need)
            && MaxNeed(Scan(code, entry, pc, s).value) == LastNeed(stride, i, Motifs(code, pc, MotifOf(k)).value)
    decreases if pc < |code| then |code| - pc else 0
  {
    hide Scan, MsizeStable, MotifAt, Offset, LastNeed, MaxNeed, AtBlockEnd;
    var n, s := Motifs(code, pc, MotifOf(k)).value, [Known(stride), c];
    if ScanEnds(code, pc) {
      ScanAtEnd(code, entry, pc, stride, i, s, seen, need);
    } else {
      var addr := c.value;
      LinearGrowth(stride, i, n);
      MotifScan(k, code, entry, pc, stride, addr, seen, need);
      var c' := AddConst(Known(stride), Known(addr));
      ScanMotifs(k, code, entry, pc + 5, stride, i + 1, c', Max(seen, addr + 32), need);
      MaxNeedCons(addr, Scan(code, entry, pc + 5, [Known(stride), c']).value);
    }
  }

  lemma ScanAtEnd(code: seq<byte>, entry: nat, pc: nat, stride: nat, i: nat, s: seq<Const>, seen: nat, need: nat)
    requires entry < pc && ScanEnds(code, pc)
    ensures Scan(code, entry, pc, s) == Some([]) && MsizeStable(code, entry, pc, s, seen, need)
    ensures MaxNeed([]) == LastNeed(stride, i, 0) == 0
  {
  }

  lemma MaxNeedCons(addr: word, rest: seq<Access>)
    ensures MaxNeed([Access(addr, 32)] + rest) == Max(addr + 32, MaxNeed(rest))
  {
    assert ([Access(addr, 32)] + rest)[1..] == rest;
  }

  lemma LinearGrowth(stride: nat, i: nat, n: nat)
    requires n > 0
    ensures Offset(stride, i) + 32 <= LastNeed(stride, i, n) == Max(Offset(stride, i) + 32, LastNeed(stride, i + 1, n - 1))
    ensures stride + Offset(stride, i) == Offset(stride, i + 1)
    ensures n > 1 ==> Offset(stride, i + 1) + 32 <= LastNeed(stride, i, n)
  {
    assert (i + n - 1) * stride == i * stride + (n - 1) * stride;
    if n > 1 {
      assert (i + n - 1) * stride == (i + 1) * stride + (n - 2) * stride;
    }
  }

  /** A completed block has its last address, unwrapped, within the limit. */
  lemma FittingAddresses(stride: word, n: nat)
    requires 2 <= n < TWO64 && AddressesFit(stride, 0, n)
    ensures LastNeed(stride, 0, n) <= MAX_REQUIRED_MEMORY_SIZE
  {
    assert LinearAddress(1, stride) == stride by { SmallMod(1 * stride, TWO256); }
    assert stride <= MAX_REQUIRED_MEMORY_SIZE;
    BoundedProduct(n - 1, stride);
    SmallMod((n - 1) * stride, TWO256);
    assert LinearAddress(n - 1, stride) == (n - 1) * stride;
  }

  lemma BoundedProduct(a: nat, b: nat)
    requires a < TWO64 && b <= MAX_REQUIRED_MEMORY_SIZE
    ensures a * b < TWO256
  {
    ProductMonotone(a, b, TWO64, MAX_REQUIRED_MEMORY_SIZE);
  }

  lemma ProductMonotone(a: nat, b: nat, c: nat, d: nat)
    requires a <= c && b <= d
    ensures a * b <= c * d
  {
    assert c * d == a * b + (c - a) * b + c * (d - b);
  }

  /**
   In a matched block the `i`-th access has address `i` times the stride, modulo 2^256, and
   finds the stride in the planned stack slot, however many repetitions there are.
   */
  lemma LinearBlockAccesses<W(!new)>(k: Kind, env: Env<W>, code: seq<byte>, f: Frame<W>, n: nat)
    requires ValidEnv(env) && ValidFrame(f) && Matches(code, f.pc, MotifOf(k), n)
    ensures var fs := AccessFrames(env, code, f.pc, f);
            && |fs| <= n && (RunBlock(env, code, f.pc, f).Continue? ==> |fs| == n)
            && forall i: nat :: i < |fs| ==> LinearAccess(k, fs[i], env.callData(0), i)
  {
    hide RunBlock, AccessFrames, RunPrechecked, LinearAccess, PrefixAt;
    PrefixRun(env, code, 0, f);
    if |f.stack| + 2 <= MAXSTACK {
      var stride := env.callData(0);
      var g := f.(pc := AfterPrefix(code, f.pc), stack := f.stack + [stride, 0]);
      assert LinearAddress(0, stride) == 0;
      MotifsRun(k, env, code, f.pc, g, f.stack, stride, 0);
      var fs := AccessFrames(env, code, f.pc, f);
      forall i: nat | i < |fs|
        ensures LinearAccess(k, fs[i], stride, i)
      {
        assert LinearAccess(k, fs[i], stride, 0 + i);
      }
    }
  }

  /**
   The linear precheck is sound: one expansion to the last address plus 32 before the first
   access gives the same result as an expansion at each access, for every frame and stride.
   */
  lemma LinearPrecheckSound<W(!new)>(k: Kind, env: Env<W>, code: seq<byte>, f: Frame<W>, n: nat)
    requires ValidEnv(env) && ValidFrame(f) && |code| < TWO64 && Matches(code, f.pc, MotifOf(k), n)
    ensures SameOrBothFail(RunBlock(env, code, f.pc, f), RunPrechecked(env, code, f.pc, LastNeed(env.callData(0), 0, n), f))
  {
    hide RunBlock, AccessFrames, RunPrechecked, LinearAccess, PrefixAt, Scan, MsizeStable;
    var stride, entry := env.callData(0), f.pc;
    var need := LastNeed(stride, 0, n);
    PrefixRun(env, code, need, f);
    if |f.stack| + 2 <= MAXSTACK {
      var g := f.(pc := AfterPrefix(code, entry), stack := f.stack + [stride, 0]);
      RepetitionsSound(k, env, code, entry, g, f.stack, stride, n);
    }
  }

  lemma RepetitionsSound<W(!new)>(
    k: Kind, env: Env<W>, code: seq<byte>, entry: nat, g: Frame<W>, base: seq<word>, stride: word, n: nat)
    requires ValidEnv(env) && ValidFrame(g) && |code| < TWO64 && entry < g.pc && g.stack == base + [stride, 0]
    requires n >= 2 && Motifs(code, g.pc, MotifOf(k)) == Some(n)
    ensures SameOrBothFail(RunBlock(env, code, entry, g), RunPrechecked(env, code, entry, LastNeed(stride, 0, n), g))
  {
    hide RunBlock, AccessFrames, RunPrechecked, LinearAccess, Scan, MsizeStable, LastNeed, MotifAt;
    var need := LastNeed(stride, 0, n);
    if need <= MAX_REQUIRED_MEMORY_SIZE {
      var s := [Known(stride), Known(0)];
      ScanMotifs(k, code, entry, g.pc, stride, 0, Known(0), 0, need);
      assert Covers(s, g.stack);
      PrecheckSoundFrom(env, code, entry, g, s, need);
    } else {
      assert LinearAddress(0, stride) == 0;
      MotifsRun(k, env, code, entry, g, base, stride, 0);
      if RunBlock(env, code, entry, g).Continue? {
        FittingAddresses(stride, n);
        assert false;
      }
      FirstExpansionFails(k, env, code, entry, g, base, stride, need);
    }
  }

  /** An expansion beyond the limit fails at the first access, if the block gets that far. */
  lemma FirstExpansionFails<W(!new)>(
    k: Kind, env: Env<W>, code: seq<byte>, entry: nat, f: Frame<W>, base: seq<word>, stride: word, need: nat)
    requires ValidEnv(env) && ValidFrame(f) && MotifAt(code, f.pc, MotifOf(k)) && f.stack == base + [stride, 0]
    requires need > MAX_REQUIRED_MEMORY_SIZE
    ensures RunPrechecked(env, code, entry, need, f).Fail?
  {
    hide RunBlock, AccessFrames, RunPrechecked, ValidEnv, MotifAt;
    ReachAccess(k, env, code, entry, need, f, base, stride, 0);
    MotifBytes(code, f.pc, k);
    if |f.stack| + Lead(k) <= MAXSTACK {
      AccessFails(env, code, entry, need, AtAccess(k, f, base, stride, 0));
    }
  }

  lemma AccessFails<W(!new)>(env: Env<W>, code: seq<byte>, entry: nat, need: nat, f: Frame<W>)
    requires ValidEnv(env) && ValidFrame(f) && f.pc < |code| && IsDirect(code[f.pc]) && need > MAX_REQUIRED_MEMORY_SIZE
    ensures !AtBlockEnd(code, entry, f.pc) ==> RunPrechecked(env, code, entry, need, f).Fail?
  {
    hide RunBlock;
  }
}
