/**
 Laws of the written-out opcodes, each stated without the functions that define them: what
 one opcode undoes of another, and which bytes and words it leaves where.
 */
module FrameLaws {
  import opened Basics
  import opened Bytecode
  import opened PushDecoding
  import opened GasBlocks
  import opened MemoryGas
  import opened Semantics

  // Bytes of a word

  /** Storing and reading back gives the low bytes of the value. */
  lemma {:induction false} StoreReadBack(v: nat, n: nat)
    requires v < Pow256(n)
    ensures BigEndian(StoreBe(v, n)) == v
  {
    if n > 0 {
      StoreReadBack(v / 256, n - 1);
      assert StoreBe(v, n)[..n - 1] == StoreBe(v / 256, n - 1);
    }
  }

  /** Reading and storing back gives the bytes. */
  lemma {:induction false} ReadStoreBack(s: seq<byte>)
    ensures StoreBe(BigEndian(s), |s|) == s
  {
    if s != [] {
      ReadStoreBack(s[..|s| - 1]);
      assert (BigEndian(s[..|s| - 1]) * 256 + s[|s| - 1]) / 256 == BigEndian(s[..|s| - 1]);
    }
  }

  lemma StoredWord(v: word)
    ensures BigEndian(StoreBe(v, 32)) == v && StoreBe(v, 1) == [v % 256]
  {
    Pow256ThirtyTwo();
    StoreReadBack(v, 32);
    assert StoreBe(v / 256, 0) == [];
  }

  // Memory

  /** The byte at `i`; memory reads zero beyond what has been touched. */
  function ByteAt<W>(f: Frame<W>, i: nat): byte {
    ByteOrZero(f.memory, i)
  }

  /** The `n` bytes at `offset`. */
  ghost predicate ReadsAs<W>(f: Frame<W>, offset: nat, bytes: seq<byte>) {
    forall k: nat :: k < |bytes| ==> bytes[k] == ByteAt(f, offset + k)
  }

  /** `f'` is `f` after `pops` words are replaced by `pushes`, the last of which is the new top. */
  ghost predicate Replaces<W>(f: Frame<W>, pops: nat, pushes: seq<word>, f': Frame<W>) {
    && pops <= |f.stack| && |f'.stack| == |f.stack| - pops + |pushes|
    && (forall i :: 0 <= i < |f.stack| - pops ==> f'.stack[i] == f.stack[i])
    && forall i :: 0 <= i < |pushes| ==> f'.stack[|f.stack| - pops + i] == pushes[i]
  }

  /** What an opcode that touches `size` bytes at `offset` pays: growth in whole words, nothing inside. */
  ghost predicate PaysGrowth<W>(f: Frame<W>, offset: nat, size: nat, f': Frame<W>) {
    && |f'.memory| == Max(|f.memory|, if size == 0 then 0 else Align32(offset + size))
    && f.gas - f'.gas == MemoryCost(|f'.memory| / 32) - MemoryCost(|f.memory| / 32)
    && f'.world == f.world
  }

  /** The word on top of a stack, and the one below it. */
  function Top<W>(f: Frame<W>): (w: word)
    requires |f.stack| >= 1
  {
    f.stack[|f.stack| - 1]
  }

  function Second<W>(f: Frame<W>): (w: word)
    requires |f.stack| >= 2
  {
    f.stack[|f.stack| - 2]
  }

  lemma ExpandedBytes<W>(f: Frame<W>, offset: word, size: word)
    requires ValidFrame(f)
    ensures var e := Expanded(f, offset, size);
            e.Some? ==>
              var f' := f.(memory := e.value.bytes, gas := e.value.gas);
              && PaysGrowth(f, offset, size, f') && (size != 0 ==> offset + size <= |f'.memory|)
              && forall i: nat :: ByteAt(f', i) == ByteAt(f, i)
    ensures (size == 0 || offset + size <= |f.memory|) ==> Expanded(f, offset, size) == Some(Memory(f.memory, f.gas))
  {
    hide MemoryCost, CheckExpand;
    CheckExpandExact(Memory(f.memory, f.gas), Access(offset, size));
    assert Align32(0) == 0;
    if size == 0 || offset + size <= |f.memory| {
      AlignInside(|f.memory|, Needs(Access(offset, size)));
    }
  }

  lemma AlignInside(size: nat, need: nat)
    requires size % 32 == 0 && need <= size
    ensures Align32(need) <= size
  {
  }

  /** Which handler the memory opcodes have. */
  lemma MemoryHandlers<W>(env: Env<W>, code: seq<byte>, f: Frame<W>)
    requires ValidFrame(f) && f.pc < |code|
    ensures code[f.pc] == OP_MLOAD ==> Handle(env, code, f) == MLoad(f)
    ensures code[f.pc] == OP_MSTORE ==> Handle(env, code, f) == MStore(f, 32)
    ensures code[f.pc] == OP_MSTORE8 ==> Handle(env, code, f) == MStore(f, 1)
    ensures code[f.pc] in {OP_RETURN, OP_REVERT} ==> Handle(env, code, f) == Return(f, code[f.pc] == OP_REVERT)
  {
    hide MLoad, MStore, Return, RunPlain, RunSensitive;
  }

  /** MSTORE and MSTORE8 write the low bytes of the second word, most significant first, at the first, and nothing else. */
  lemma StoreWrites<W>(env: Env<W>, code: seq<byte>, f: Frame<W>, f': Frame<W>)
    requires ValidFrame(f) && f.pc < |code| && code[f.pc] in {OP_MSTORE, OP_MSTORE8} && Handle(env, code, f) == Continue(f')
    ensures var width := if code[f.pc] == OP_MSTORE then 32 else 1;
            && Replaces(f, 2, [], f') && PaysGrowth(f, Top(f), width, f') && f'.pc == f.pc + 1
            && Top(f) + width <= |f'.memory|
            && (width == 32 ==> BigEndian(f'.memory[Top(f)..Top(f) + 32]) == Second(f))
            && (width == 1 ==> f'.memory[Top(f)] == Second(f) % 256)
            && forall i: nat :: !(Top(f) <= i < Top(f) + width) ==> ByteAt(f', i) == ByteAt(f, i)
  {
    hide Handle, StoreBe, BigEndian, Expanded, MemoryCost, Align32;
    var width := if code[f.pc] == OP_MSTORE then 32 else 1;
    MemoryHandlers(env, code, f);
    ExpandedBytes(f, Top(f), width);
    StoredWord(Second(f));
    assert f'.memory[Top(f)..Top(f) + width] == StoreBe(Second(f), width);
  }

  /** MLOAD replaces the offset by the number its 32 bytes write, zeros beyond memory. */
  lemma LoadReads<W>(env: Env<W>, code: seq<byte>, f: Frame<W>, f': Frame<W>)
    requires ValidFrame(f) && f.pc < |code| && code[f.pc] == OP_MLOAD && Handle(env, code, f) == Continue(f')
    ensures PaysGrowth(f, Top(f), 32, f') && f'.pc == f.pc + 1 && Top(f) + 32 <= |f'.memory|
    ensures var bytes := f'.memory[Top(f)..Top(f) + 32];
            ReadsAs(f, Top(f), bytes) && BigEndian(bytes) < TWO256 && Replaces(f, 1, [BigEndian(bytes)], f')
    ensures forall i: nat :: ByteAt(f', i) == ByteAt(f, i)
  {
    hide Handle, BigEndian, Expanded, MemoryCost, Align32;
    MemoryHandlers(env, code, f);
    ExpandedBytes(f, Top(f), 32);
    PushFitsWord(f'.memory[Top(f)..Top(f) + 32]);
    var bytes := f'.memory[Top(f)..Top(f) + 32];
    assert forall k: nat :: k < 32 ==> bytes[k] == ByteAt(f', Top(f) + k);
  }

  /**
   What is stored is loaded: after an MSTORE, an MLOAD of the same offset gives the stored
   word for as long as its 32 bytes are not written, and costs nothing beyond its static gas.
   */
  lemma StoreThenLoad<W>(env: Env<W>, code: seq<byte>, f: Frame<W>, f': Frame<W>, g: Frame<W>)
    requires ValidFrame(f) && f.pc < |code| && code[f.pc] == OP_MSTORE && Handle(env, code, f) == Continue(f')
    requires ValidFrame(g) && g.pc < |code| && code[g.pc] == OP_MLOAD && |g.stack| >= 1 && Top(g) == Top(f)
    requires |f'.memory| <= |g.memory| && forall i: nat :: Top(f) <= i < Top(f) + 32 ==> ByteAt(g, i) == ByteAt(f', i)
    ensures Handle(env, code, g) == Continue(g.(pc := g.pc + 1, stack := g.stack[..|g.stack| - 1] + [Second(f)]))
  {
    hide Handle, BigEndian, MemoryCost, Align32, MStore;
    StoreWrites(env, code, f, f');
    LoadSucceeds(env, code, g);
    assert g.memory[Top(f)..Top(f) + 32] == f'.memory[Top(f)..Top(f) + 32] by {
      assert forall i: nat :: Top(f) <= i < Top(f) + 32 ==> ByteAt(g, i) == g.memory[i] && ByteAt(f', i) == f'.memory[i];
    }
  }

  lemma LoadSucceeds<W>(env: Env<W>, code: seq<byte>, g: Frame<W>)
    requires ValidFrame(g) && g.pc < |code| && code[g.pc] == OP_MLOAD && |g.stack| >= 1 && Top(g) + 32 <= |g.memory|
    ensures BigEndian(g.memory[Top(g)..Top(g) + 32]) < TWO256
    ensures var v := BigEndian(g.memory[Top(g)..Top(g) + 32]);
            Handle(env, code, g) == Continue(g.(pc := g.pc + 1, stack := g.stack[..|g.stack| - 1] + [v]))
  {
    hide Handle, BigEndian, Expanded;
    MemoryHandlers(env, code, g);
    ExpandedBytes(g, Top(g), 32);
    PushFitsWord(g.memory[Top(g)..Top(g) + 32]);
  }

  /** RETURN and REVERT end the frame with the bytes of the range, the first word its offset and the second its size. */
  lemma ReturnOutputs<W>(env: Env<W>, code: seq<byte>, f: Frame<W>)
    requires ValidFrame(f) && f.pc < |code| && code[f.pc] in {OP_RETURN, OP_REVERT}
    ensures var r := Handle(env, code, f);
            && (r.Fail? || (r.Stop? && code[f.pc] == OP_RETURN) || (r.Reverted? && code[f.pc] == OP_REVERT))
            && (!r.Fail? ==> |f.stack| >= 2 && |r.output| == Second(f) && ReadsAs(f, Top(f), r.output)
                             && PaysGrowth(f, Top(f), Second(f), r.frame) && Replaces(f, 2, [], r.frame))
  {
    hide Handle, Expanded, PaysGrowth, ReadsAs, Slice;
    MemoryHandlers(env, code, f);
    if |f.stack| >= 2 && Expanded(f, Top(f), Second(f)).Some? {
      SliceReads(f, Top(f), Second(f));
    }
  }

  lemma SliceReads<W>(f: Frame<W>, offset: word, size: word)
    requires ValidFrame(f) && Expanded(f, offset, size).Some?
    ensures var m := Expanded(f, offset, size).value;
            && (size != 0 ==> offset + size <= |m.bytes|)
            && |Slice(m.bytes, offset, size)| == size && ReadsAs(f, offset, Slice(m.bytes, offset, size))
            && forall g: Frame<W> :: g.memory == m.bytes && g.gas == m.gas && g.world == f.world ==> PaysGrowth(f, offset, size, g)
  {
    hide Expanded, MemoryCost, Align32;
    ExpandedBytes(f, offset, size);
    var m := Expanded(f, offset, size).value;
    var f', bytes := f.(memory := m.bytes, gas := m.gas), Slice(m.bytes, offset, size);
    forall k: nat | k < |bytes|
      ensures bytes[k] == ByteAt(f, offset + k)
    {
      assert ByteAt(f', offset + k) == ByteAt(f, offset + k);
    }
  }

  /** A stored word that is returned is the output, most significant byte first. */
  lemma StoreThenReturn<W>(env: Env<W>, code: seq<byte>, f: Frame<W>, f': Frame<W>, g: Frame<W>)
    requires ValidFrame(f) && f.pc < |code| && code[f.pc] == OP_MSTORE && Handle(env, code, f) == Continue(f')
    requires ValidFrame(g) && g.pc < |code| && code[g.pc] == OP_RETURN && |g.stack| >= 2
    requires Top(g) == Top(f) && Second(g) == 32
    requires |f'.memory| <= |g.memory| && forall i: nat :: Top(f) <= i < Top(f) + 32 ==> ByteAt(g, i) == ByteAt(f', i)
    ensures var r := Handle(env, code, g);
            r.Stop? && |r.output| == 32 && BigEndian(r.output) == Second(f) && r.frame.gas == g.gas
  {
    hide Handle, BigEndian, MemoryCost, Align32, MStore, Return;
    StoreWrites(env, code, f, f');
    ReturnSucceeds(env, code, g);
    assert g.memory[Top(f)..Top(f) + 32] == f'.memory[Top(f)..Top(f) + 32] by {
      assert forall i: nat :: Top(f) <= i < Top(f) + 32 ==> ByteAt(g, i) == g.memory[i] && ByteAt(f', i) == f'.memory[i];
    }
  }

  lemma ReturnSucceeds<W>(env: Env<W>, code: seq<byte>, g: Frame<W>)
    requires ValidFrame(g) && g.pc < |code| && code[g.pc] == OP_RETURN && |g.stack| >= 2
    requires Second(g) > 0 && Top(g) + Second(g) <= |g.memory|
    ensures Handle(env, code, g) ==
            Stop(g.(stack := g.stack[..|g.stack| - 2]), g.memory[Top(g)..Top(g) + Second(g)])
  {
    hide Handle, Expanded;
    MemoryHandlers(env, code, g);
    ExpandedBytes(g, Top(g), Second(g));
  }

  // Stack and control flow

  /** PUSHn pushes the n bytes after it as a number and goes past them. */
  lemma PushPushes<W>(env: Env<W>, code: seq<byte>, f: Frame<W>, n: nat)
    requires ValidFrame(f) && f.pc < |code| && 1 <= n <= 32 && code[f.pc] == OP_PUSH1 + n - 1
    ensures var r := Handle(env, code, f);
            && (r.Fail? <==> |f.stack| == MAXSTACK)
            && (!r.Fail? ==>
                  && r.Continue? && r.frame == f.(pc := f.pc + 1 + n, stack := r.frame.stack)
                  && exists v: word :: v == BigEndian(ImmediateBytes(code, f.pc, n)) && Replaces(f, 0, [v], r.frame))
  {
    hide BigEndian, ImmediateBytes;
    LoadPushValueCorrect(code, f.pc, n);
    PushFitsWord(ImmediateBytes(code, f.pc, n));
  }

  /** DUPn copies the n-th word from the top; SWAPn exchanges the top with the n-th below it. */
  lemma DupCopies<W>(env: Env<W>, code: seq<byte>, f: Frame<W>, n: nat)
    requires ValidFrame(f) && f.pc < |code| && 1 <= n <= 16 && code[f.pc] == OP_DUP1 + n - 1
    ensures var r := Handle(env, code, f);
            && (r.Fail? <==> |f.stack| < n || |f.stack| == MAXSTACK)
            && (!r.Fail? ==>
                  && r.Continue? && r.frame == f.(pc := f.pc + 1, stack := r.frame.stack)
                  && Replaces(f, 0, [f.stack[|f.stack| - n]], r.frame))
  {
  }

  lemma SwapExchanges<W>(env: Env<W>, code: seq<byte>, f: Frame<W>, n: nat)
    requires ValidFrame(f) && f.pc < |code| && 1 <= n <= 16 && code[f.pc] == OP_SWAP1 + n - 1
    ensures var r := Handle(env, code, f);
            && (r.Fail? <==> |f.stack| <= n)
            && (!r.Fail? ==>
                  && r.Continue? && r.frame == f.(pc := f.pc + 1, stack := r.frame.stack) && |r.frame.stack| == |f.stack|
                  && Top(r.frame) == f.stack[|f.stack| - 1 - n] && r.frame.stack[|f.stack| - 1 - n] == Top(f)
                  && forall i :: 0 <= i < |f.stack| - 1 && i != |f.stack| - 1 - n ==> r.frame.stack[i] == f.stack[i])
  {
  }

  /** Subtracting the second word from the first and adding it again gives the first. */
  lemma AddUndoesSub<W>(env: Env<W>, code: seq<byte>, f: Frame<W>, f': Frame<W>, g: Frame<W>)
    requires ValidFrame(f) && f.pc < |code| && code[f.pc] == OP_SUB && Handle(env, code, f) == Continue(f')
    requires ValidFrame(g) && g.pc < |code| && code[g.pc] == OP_ADD && |g.stack| >= 2 && |f'.stack| >= 1
    requires (Top(g) == Top(f') && Second(g) == Second(f)) || (Top(g) == Second(f) && Second(g) == Top(f'))
    ensures |f'.stack| == |f.stack| - 1 && Replaces(f, 2, [Top(f')], f')
    ensures var r := Handle(env, code, g); r.Continue? && |r.frame.stack| == |g.stack| - 1 && Replaces(g, 2, [Top(f)], r.frame)
  {
    hide RunPlain, RunSensitive, MLoad, MStore, Return;
    WrappedSub(Top(f), Second(f));
  }

  lemma WrappedSub(a: word, b: word)
    ensures ((a - b) % TWO256 + b) % TWO256 == a
  {
    assert (a - b) % TWO256 == if a >= b then a - b else a - b + TWO256;
  }

  /** JUMP goes to its operand; JUMPI goes to the first exactly when the second is not zero. Both need a JUMPDEST. */
  lemma JumpGoes<W>(env: Env<W>, code: seq<byte>, f: Frame<W>)
    requires ValidFrame(f) && f.pc < |code| && IsJump(code[f.pc])
    ensures var r, pops := Handle(env, code, f), if code[f.pc] == OP_JUMP then 1 else 2;
            if |f.stack| < pops then r.Fail?
            else if code[f.pc] == OP_JUMPI && Second(f) == 0 then
              r.Continue? && r.frame == f.(pc := f.pc + 1, stack := r.frame.stack) && Replaces(f, 2, [], r.frame)
            else if Top(f) < |code| && code[Top(f)] == OP_JUMPDEST && Follows(code, 0, Top(f)) then
              r.Jumped? && r.frame == f.(pc := Top(f), stack := r.frame.stack) && Replaces(f, pops, [], r.frame)
            else r.Fail?
  {
    hide Handle, Follows;
    JumpHandlers(env, code, f);
  }

  lemma JumpHandlers<W>(env: Env<W>, code: seq<byte>, f: Frame<W>)
    requires ValidFrame(f) && f.pc < |code|
    ensures code[f.pc] == OP_JUMP ==>
              Handle(env, code, f) ==
              if |f.stack| < 1 then Fail(StackUnderflow) else JumpTo(code, f, Peek(f.stack, 1), Drop(f.stack, 1))
    ensures code[f.pc] == OP_JUMPI ==>
              Handle(env, code, f) ==
              if |f.stack| < 2 then Fail(StackUnderflow)
              else if Peek(f.stack, 2) == 0 then Continue(f.(stack := Drop(f.stack, 2), pc := f.pc + 1))
              else JumpTo(code, f, Peek(f.stack, 1), Drop(f.stack, 2))
  {
    hide JumpTo, MLoad, MStore, Return, RunPlain, RunSensitive;
  }

  /** The opcodes that read the frame push what they name. */
  lemma ReadersPush<W>(env: Env<W>, code: seq<byte>, f: Frame<W>)
    requires ValidFrame(f) && f.pc < |code| && code[f.pc] in {OP_PC, OP_MSIZE, OP_GAS, OP_PUSH0}
    ensures var r := Handle(env, code, f);
            && (r.Fail? <==> |f.stack| == MAXSTACK)
            && (!r.Fail? ==>
                  && r.Continue? && r.frame == f.(pc := f.pc + 1, stack := r.frame.stack)
                  && |r.frame.stack| == |f.stack| + 1 && Replaces(f, 0, [Top(r.frame)], r.frame)
                  && (code[f.pc] == OP_PC && f.pc < TWO256 ==> Top(r.frame) == f.pc)
                  && (code[f.pc] == OP_MSIZE ==> Top(r.frame) == |f.memory|)
                  && (code[f.pc] == OP_GAS && f.gas < TWO256 ==> Top(r.frame) == f.gas)
                  && (code[f.pc] == OP_PUSH0 ==> Top(r.frame) == 0))
  {
    hide RunPlain, RunSensitive, MLoad, MStore, Return;
  }

  /** POP gives back the stack before a push. */
  lemma PopUndoesPush<W>(env: Env<W>, code: seq<byte>, f: Frame<W>, w: word, g: Frame<W>)
    requires ValidFrame(g) && g.pc < |code| && code[g.pc] == OP_POP && Replaces(f, 0, [w], g)
    ensures Handle(env, code, g) == Continue(g.(pc := g.pc + 1, stack := f.stack))
  {
    assert g.stack[..|g.stack| - 1] == f.stack;
  }

  /** STOP, INVALID, JUMPDEST and CALLDATALOAD. */
  lemma SimpleOpcodes<W>(env: Env<W>, code: seq<byte>, f: Frame<W>)
    requires ValidFrame(f) && f.pc < |code|
    ensures code[f.pc] == OP_STOP ==> Handle(env, code, f) == Stop(f, [])
    ensures code[f.pc] == OP_INVALID ==> Handle(env, code, f).Fail?
    ensures code[f.pc] == OP_JUMPDEST ==> Handle(env, code, f) == Continue(f.(pc := f.pc + 1))
    ensures code[f.pc] == OP_CALLDATALOAD ==>
              var r := Handle(env, code, f);
              && (r.Fail? <==> f.stack == [])
              && (!r.Fail? ==> r.Continue? && r.frame == f.(pc := f.pc + 1, stack := r.frame.stack)
                               && Replaces(f, 1, [env.callData(Top(f))], r.frame))
  {
    hide MLoad, MStore, Return, RunPlain, RunSensitive;
  }

  /** An opcode with a plain handler pays its dynamic gas or fails; the handler sees everything but the gas. */
  lemma PlainHandlerPays<W>(env: Env<W>, code: seq<byte>, f: Frame<W>)
    requires ValidFrame(f) && f.pc < |code|
    requires var op := code[f.pc];
             && op !in {OP_STOP, OP_ADD, OP_SUB, OP_CALLDATALOAD, OP_POP, OP_MLOAD, OP_MSTORE, OP_MSTORE8, OP_JUMP, OP_JUMPI}
             && op !in {OP_PC, OP_MSIZE, OP_GAS, OP_JUMPDEST, OP_PUSH0, OP_RETURN, OP_REVERT, OP_INVALID}
             && !IsPush(op) && !(OP_DUP1 <= op <= OP_SWAP16) && !IsSensitive(op)
    ensures var h, r := env.plain(code[f.pc], f.stack, f.memory, f.world), Handle(env, code, f);
            && (r.Fail? <==> h.PlainFail? || h.dynamicGas > f.gas)
            && (!r.Fail? ==>
                  && r.Continue? && r.frame.pc == f.pc + 1 && r.frame.gas + h.dynamicGas == f.gas
                  && r.frame.stack == h.stack && r.frame.memory == h.memory && r.frame.world == h.world)
  {
    hide MLoad, MStore, Return, RunSensitive;
  }

  // A whole program

  /** PUSH1 v, PUSH1 0, MSTORE, PUSH1 32, PUSH1 0, RETURN. */
  function StoreAndReturn(v: byte): (code: seq<byte>) {
    [OP_PUSH1, v, OP_PUSH1, 0, OP_MSTORE, OP_PUSH1, 32, OP_PUSH1, 0, OP_RETURN]
  }

  /** One charged step of a run; the opcode is neither STOP nor INVALID. */
  lemma RunStep<W(!new)>(env: Env<W>, code: seq<byte>, f: Frame<W>)
    requires ValidEnv(env) && ValidFrame(f) && f.pc < |code| && env.defined[code[f.pc]]
    requires code[f.pc] != OP_STOP && code[f.pc] != OP_INVALID
    ensures f.gas < env.table[code[f.pc]] ==> PerOpcodeRun(env, code, f) == Exceptional(OutOfGas)
    ensures f.gas >= env.table[code[f.pc]] ==>
              var r := Handle(env, code, f.(gas := f.gas - env.table[code[f.pc]]));
              && (r.Continue? ==> ValidFrame(r.frame) && PerOpcodeRun(env, code, f) == PerOpcodeRun(env, code, r.frame))
              && (r.Fail? ==> PerOpcodeRun(env, code, f) == Exceptional(r.error))
              && (r.Stop? || r.Reverted? ==>
                    PerOpcodeRun(env, code, f) ==
                    Done(r.Reverted?, r.output, r.frame.gas, r.frame.stack, r.frame.memory, r.frame.world))
  {
    hide Handle, PlainKeepsFrame, SensitiveKeepsFrame;
    ChargedStepProgresses(env, code, f);
  }

  lemma RunPush1<W(!new)>(env: Env<W>, code: seq<byte>, f: Frame<W>)
    requires ValidEnv(env) && ValidFrame(f) && f.pc + 1 < |code| && code[f.pc] == OP_PUSH1
    requires env.defined[OP_PUSH1] && |f.stack| < MAXSTACK
    ensures PerOpcodeRun(env, code, f) ==
            if f.gas < env.table[OP_PUSH1] then Exceptional(OutOfGas)
            else PerOpcodeRun(env, code, Frame(f.pc + 2, f.stack + [code[f.pc + 1]], f.memory, f.gas - env.table[OP_PUSH1], f.world))
  {
    hide Handle, PerOpcodeRun, PlainKeepsFrame, SensitiveKeepsFrame;
    RunStep(env, code, f);
    if f.gas >= env.table[OP_PUSH1] {
      HandlePush1(env, code, f.(gas := f.gas - env.table[OP_PUSH1]));
    }
  }

  lemma HandlePush1<W>(env: Env<W>, code: seq<byte>, f: Frame<W>)
    requires ValidFrame(f) && f.pc + 1 < |code| && code[f.pc] == OP_PUSH1 && |f.stack| < MAXSTACK
    ensures Handle(env, code, f) == Continue(f.(pc := f.pc + 2, stack := f.stack + [code[f.pc + 1]]))
  {
    hide Handle, BigEndian;
    PushPushes(env, code, f, 1);
    OneByte(code[f.pc + 1]);
    assert ImmediateBytes(code, f.pc, 1) == [code[f.pc + 1]];
    assert Handle(env, code, f).frame.stack == f.stack + [code[f.pc + 1]];
  }

  lemma OneByte(b: byte)
    ensures BigEndian([b]) == b
  {
    assert [b][..0] == [];
  }

  /** MSTORE at 0 in an empty memory costs one word of it. */
  lemma RunFirstStore<W(!new)>(env: Env<W>, code: seq<byte>, f: Frame<W>, v: word)
    requires ValidEnv(env) && f.pc < |code| && code[f.pc] == OP_MSTORE && env.defined[OP_MSTORE]
    requires f.stack == [v, 0] && f.memory == []
    ensures var cost := env.table[OP_MSTORE] + 3;
            if f.gas < cost then PerOpcodeRun(env, code, f) == Exceptional(OutOfGas)
            else exists bytes ::
              && |bytes| == 32 && BigEndian(bytes) == v
              && PerOpcodeRun(env, code, f) == PerOpcodeRun(env, code, Frame(f.pc + 1, [], bytes, f.gas - cost, f.world))
  {
    hide Handle, PerOpcodeRun, BigEndian, StoreBe, PlainKeepsFrame, SensitiveKeepsFrame;
    RunStep(env, code, f);
    if f.gas >= env.table[OP_MSTORE] {
      var paid := f.(gas := f.gas - env.table[OP_MSTORE]);
      FirstStore(env, code, paid, v);
    }
  }

  lemma FirstStore<W>(env: Env<W>, code: seq<byte>, f: Frame<W>, v: word)
    requires f.pc < |code| && code[f.pc] == OP_MSTORE && f.stack == [v, 0] && f.memory == []
    ensures Handle(env, code, f) ==
            if f.gas < 3 then Fail(OutOfGas) else Continue(Frame(f.pc + 1, [], StoreBe(v, 32), f.gas - 3, f.world))
    ensures BigEndian(StoreBe(v, 32)) == v
  {
    hide Handle, StoreBe, BigEndian, CheckExpand;
    MemoryHandlers(env, code, f);
    StoredWord(v);
    CheckExpandExact(Memory([], f.gas), Access(0, 32));
    assert MemoryCost(1) == 3 && MemoryCost(0) == 0;
    assert forall bytes: seq<byte> :: |bytes| == 32 ==> bytes[..0] + StoreBe(v, 32) + bytes[32..] == StoreBe(v, 32);
  }

  lemma RunReturnWord<W(!new)>(env: Env<W>, code: seq<byte>, f: Frame<W>)
    requires ValidEnv(env) && f.pc < |code| && code[f.pc] == OP_RETURN && env.defined[OP_RETURN]
    requires f.stack == [32, 0] && |f.memory| == 32
    ensures PerOpcodeRun(env, code, f) ==
            if f.gas < env.table[OP_RETURN] then Exceptional(OutOfGas)
            else Done(false, f.memory, f.gas - env.table[OP_RETURN], [], f.memory, f.world)
  {
    hide Handle, PerOpcodeRun, PlainKeepsFrame, SensitiveKeepsFrame;
    RunStep(env, code, f);
    if f.gas >= env.table[OP_RETURN] {
      var paid := f.(gas := f.gas - env.table[OP_RETURN]);
      ReturnSucceeds(env, code, paid);
      assert f.memory[0..32] == f.memory;
    }
  }

  function Price(t: CostTable): (n: int) {
    4 * t[OP_PUSH1] + t[OP_MSTORE] + 3 + t[OP_RETURN]
  }

  /**
   The program that stores a byte as a word and returns it: with enough gas its output is
   that word, most significant byte first, and the gas left is exact; otherwise it fails.
   */
  lemma StoredByteIsReturned<W(!new)>(env: Env<W>, v: byte, gas: nat, world: W)
    requires ValidEnv(env) && env.defined[OP_PUSH1] && env.defined[OP_MSTORE] && env.defined[OP_RETURN]
    ensures var o := PerOpcodeRun(env, StoreAndReturn(v), Frame(0, [], [], gas, world));
            if gas < Price(env.table) then o == Exceptional(OutOfGas)
            else o.Done? && !o.reverted && |o.output| == 32 && BigEndian(o.output) == v && o.gas == gas - Price(env.table)
  {
    hide PerOpcodeRun, PlainKeepsFrame, SensitiveKeepsFrame, BigEndian;
    var code, push, store := StoreAndReturn(v), env.table[OP_PUSH1], env.table[OP_MSTORE] + 3;
    var f0 := Frame(0, [], [], gas, world);
    assert push >= 0 && env.table[OP_MSTORE] >= 0 && env.table[OP_RETURN] >= 0;
    RunPush1(env, code, f0);
    if gas >= 2 * push {
      var f1 := Frame(2, [v], [], gas - push, world);
      assert [] + [v] == [v];
      RunPush1(env, code, f1);
      var f2 := Frame(4, [v, 0], [], gas - 2 * push, world);
      assert [v] + [0] == [v, 0];
      RunFirstStore(env, code, f2, v);
      if f2.gas >= store {
        var bytes :| |bytes| == 32 && BigEndian(bytes) == v
                     && PerOpcodeRun(env, code, f2) == PerOpcodeRun(env, code, Frame(5, [], bytes, f2.gas - store, world));
        ReturnBytes(env, v, bytes, f2.gas - store, world);
      }
    } else if gas >= push {
      assert [] + [v] == [v];
      RunPush1(env, code, Frame(2, [v], [], gas - push, world));
    }
  }

  lemma ReturnBytes<W(!new)>(env: Env<W>, v: byte, bytes: seq<byte>, gas: nat, world: W)
    requires ValidEnv(env) && env.defined[OP_PUSH1] && env.defined[OP_RETURN] && |bytes| == 32
    ensures var o := PerOpcodeRun(env, StoreAndReturn(v), Frame(5, [], bytes, gas, world));
            var cost := 2 * env.table[OP_PUSH1] + env.table[OP_RETURN];
            if gas < cost then o == Exceptional(OutOfGas) else o == Done(false, bytes, gas - cost, [], bytes, world)
  {
    hide PerOpcodeRun, PlainKeepsFrame, SensitiveKeepsFrame;
    var code, push := StoreAndReturn(v), env.table[OP_PUSH1];
    assert push >= 0 && env.table[OP_RETURN] >= 0;
    assert [] + [32] == [32] && [32] + [0] == [32, 0];
    RunPush1(env, code, Frame(5, [], bytes, gas, world));
    if gas >= push {
      RunPush1(env, code, Frame(7, [32], bytes, gas - push, world));
      if gas >= 2 * push {
        RunReturnWord(env, code, Frame(9, [32, 0], bytes, gas - 2 * push, world));
      }
    }
  }
}
