/**
 Memory and gas of nested message calls in one EVM instance.

 Each active message has its own memory. A nested call parks the caller's buffer on a
 stack and starts with none; returning moves it back. The outermost message reuses
 whatever buffer is left from earlier calls, stale bytes included.

 `Instance` is the value of the instance's state; `EVMInstance` is the object with its
 buffers updated in place.
 */
module CallFrames {
  import opened Basics
  import opened PushDecoding
  import opened MemoryGas

  /** A memory buffer, if one is allocated, and how much of it is in use. */
  datatype Frame = Frame(buffer: Option<seq<byte>>, size: nat) {
    predicate Valid() {
      && size % 32 == 0 && size <= MAX_REQUIRED_MEMORY_SIZE
      && (buffer.Some? ==> |buffer.value| == MAX_REQUIRED_MEMORY_SIZE)
      && (buffer.None? ==> size == 0)
    }

    /** The bytes the program can see. */
    function View(): (v: seq<byte>)
      requires Valid()
      ensures |v| == size
    {
      if buffer.None? then [] else buffer.value[..size]
    }
  }

  datatype Instance = Instance(current: Frame, saved: seq<Frame>, messages: seq<nat>, refunds: seq<int>, refund: int)

  /** Buffers are well formed, and the three stacks match in depth. */
  predicate Valid(s: Instance) {
    && s.current.Valid() && (forall i :: 0 <= i < |s.saved| ==> s.saved[i].Valid())
    && |s.saved| == (if |s.messages| == 0 then 0 else |s.messages| - 1)
    && |s.refunds| == |s.messages|
  }

  /** Gas of the active message. */
  function Gas(s: Instance): (g: nat) {
    if |s.messages| == 0 then 0 else s.messages[|s.messages| - 1]
  }

  function Push(s: Instance, gas: nat): (r: Instance) {
    if |s.messages| == 0 then
      Instance(Frame(s.current.buffer, 0), [], [gas], [s.refund], s.refund)
    else
      Instance(Frame(None, 0), s.saved + [s.current], s.messages + [gas], s.refunds + [s.refund], s.refund)
  }

  function Pop(s: Instance): (r: Instance) {
    var messages := if |s.messages| == 0 then [] else s.messages[..|s.messages| - 1];
    var refunds := if |s.refunds| == 0 then [] else s.refunds[..|s.refunds| - 1];
    if |s.saved| == 0 then Instance(s.current.(size := 0), [], messages, refunds, s.refund)
    else Instance(s.saved[|s.saved| - 1], s.saved[..|s.saved| - 1], messages, refunds, s.refund)
  }

  /** Charge the active message; `None` stands for the out-of-gas exception. */
  function Charge(s: Instance, cost: nat): (r: Option<Instance>)
    requires |s.messages| > 0
  {
    if Gas(s) < cost then None else Some(s.(messages := s.messages[|s.messages| - 1 := Gas(s) - cost]))
  }

  /** `r` shows the old bytes and then zeros, whatever its buffer held before. */
  ghost predicate GrowsTo(f: Frame, r: Frame, size: nat)
    requires f.Valid()
  {
    && r.Valid() && r.size == Max(f.size, size)
    && r.View() == f.View() + Zeros(r.size - f.size)
  }

  /** An expansion to `required` bytes: the charge, and a frame that grew. */
  ghost predicate ExpandsTo(s: Instance, required: nat, r: Option<Instance>)
    requires Valid(s) && |s.messages| > 0 && required <= MAX_REQUIRED_MEMORY_SIZE
  {
    AlignWithinLimit(required);
    var charged := Charge(s, CalculateMemoryExpansionCost(s.current.size, Align32(required)));
    match charged
    case None => r.None?
    case Some(c) => r.Some? && r.value == c.(current := r.value.current) && GrowsTo(s.current, r.value.current, Align32(required))
  }

  /** A write of the running program into its own memory. */
  function Write(s: Instance, offset: nat, b: byte): (r: Instance)
    requires Valid(s) && offset < s.current.size
  {
    s.(current := s.current.(buffer := Some(s.current.buffer.value[offset := b])))
  }

  /** A failing message gives up the refunds earned since it was pushed. */
  function Rollback(s: Instance): (r: Instance) {
    if |s.refunds| == 0 then s else s.(refund := s.refunds[|s.refunds| - 1])
  }

  /** What can happen between two steps of a run. */
  datatype Op =
    | OpPush(gas: nat) | OpPop | OpExpand(required: nat) | OpWrite(offset: nat, b: byte)
    | OpRefund(amount: int) | OpRollback

  ghost predicate Step(s: Instance, op: Op, s': Instance) {
    && Valid(s)
    && match op
       case OpPush(gas) => s' == Push(s, gas)
       case OpPop => |s.messages| > 0 && s' == Pop(s)
       case OpExpand(required) =>
         |s.messages| > 0 && required <= MAX_REQUIRED_MEMORY_SIZE && ExpandsTo(s, required, Some(s'))
       case OpWrite(offset, b) => |s.messages| > 0 && offset < s.current.size && s' == Write(s, offset, b)
       case OpRefund(amount) => s' == s.(refund := s.refund + amount)
       case OpRollback => s' == Rollback(s)
  }

  /** A run: states joined by operations. */
  ghost predicate Run(states: seq<Instance>, ops: seq<Op>) {
    |states| == |ops| + 1 && forall i :: 0 <= i < |ops| ==> Step(states[i], ops[i], states[i + 1])
  }

  /** Every operation keeps the buffers well formed and the three stacks matched in depth. */
  lemma StepKeepsValid(s: Instance, op: Op, s': Instance)
    requires Step(s, op, s')
    ensures Valid(s')
  {
  }

  /** How deep a sequence of operations is nested after its first `n`. */
  function Depth(ops: seq<Op>, n: nat): (d: int)
    requires n <= |ops|
  {
    if n == 0 then 0
    else Depth(ops, n - 1) + (if ops[n - 1].OpPush? then 1 else if ops[n - 1].OpPop? then -1 else 0)
  }

  /** What stays as it was below the frame active in `s`, once the run is `d` frames deeper. */
  ghost predicate KeepsBelow(s: Instance, s': Instance, d: int) {
    && |s.messages| > 0
    && |s'.messages| == |s.messages| + d && |s'.saved| == |s.saved| + d && d >= 0
    && s'.saved[..|s.saved|] == s.saved
    && s'.messages[..|s.messages| - 1] == s.messages[..|s.messages| - 1]
    && |s'.refunds| == |s.refunds| + d && s'.refunds[..|s.refunds|] == s.refunds
  }

  lemma StepKeepsBelow(base: Instance, s: Instance, op: Op, s': Instance, d: int)
    requires KeepsBelow(base, s, d) && Step(s, op, s')
    requires op.OpPop? ==> d > 0
    ensures KeepsBelow(base, s', d + if op.OpPush? then 1 else if op.OpPop? then -1 else 0)
  {
  }

  /** While a run stays at or above a frame's depth, everything parked below that frame is untouched. */
  lemma {:induction false} ParkedFramesUntouched(states: seq<Instance>, ops: seq<Op>, from: nat, n: nat)
    requires Run(states, ops) && from <= n <= |ops| && |states[from].messages| > 0
    requires forall k :: from <= k <= n ==> Depth(ops, k) >= Depth(ops, from)
    ensures KeepsBelow(states[from], states[n], Depth(ops, n) - Depth(ops, from))
    decreases n
  {
    if from < n {
      ParkedFramesUntouched(states, ops, from, n - 1);
      assert Step(states[n - 1], ops[n - 1], states[n - 1 + 1]);
      assert Depth(ops, n) >= Depth(ops, from);
      StepKeepsBelow(states[from], states[n - 1], ops[n - 1], states[n], Depth(ops, n - 1) - Depth(ops, from));
    }
  }

  /** A pop at the depth of the push it matches gives back what the push parked. */
  lemma PopUndoesPush(s: Instance, gas: nat, s': Instance)
    requires |s.messages| > 0 && Valid(s) && KeepsBelow(Push(s, gas), s', 0) && Valid(s')
    ensures Pop(s').current == s.current && Pop(s').saved == s.saved && Pop(s').messages == s.messages
    ensures Pop(s').refunds == s.refunds && Pop(s').refund == s'.refund && s'.refunds[|s'.refunds| - 1] == s.refund
  {
    var p := Push(s, gas);
    assert s'.saved == p.saved && s'.refunds == p.refunds;
    assert p.refunds[..|p.refunds| - 1] == s.refunds;
    assert s'.messages[..|s'.messages| - 1] == p.messages[..|p.messages| - 1] == s.messages;
  }

  /**
   A nested call restores its caller: whatever runs between the push and its matching pop,
   the caller's memory and everything parked below come back byte for byte, and so do the
   gas of every suspended message and every refund snapshot.
   */
  lemma NestedCallRestoresCaller(states: seq<Instance>, ops: seq<Op>)
    requires Run(states, ops) && |ops| >= 2 && |states[0].messages| > 0
    requires ops[0].OpPush? && ops[|ops| - 1].OpPop?
    requires forall k :: 1 <= k < |ops| ==> Depth(ops, k) >= 1
    requires Depth(ops, |ops|) == 0
    ensures var before, after := states[0], states[|ops|];
            && after.current == before.current && after.saved == before.saved && after.messages == before.messages
            && after.refunds == before.refunds && after.refund == states[|ops| - 1].refund
  {
    var last := |ops| - 1;
    assert Step(states[0], ops[0], states[0 + 1]);
    assert Step(states[last], ops[last], states[last + 1]);
    assert Depth(ops, 1) == 1 && Depth(ops, last) == 1 by { assert Depth(ops, 0) == 0; }
    hide KeepsBelow, Run, Depth;
    ParkedFramesUntouched(states, ops, 1, last);
    PopUndoesPush(states[0], ops[0].gas, states[last]);
  }

  /** The refunds earned by the operations from `from` up to `n`. */
  function Earned(ops: seq<Op>, from: nat, n: nat): (e: int)
    requires from <= n <= |ops|
    decreases n
  {
    if n == from then 0 else Earned(ops, from, n - 1) + if ops[n - 1].OpRefund? then ops[n - 1].amount else 0
  }

  /** Pushing and popping change no refund: without a rollback it is what was earned. */
  lemma {:induction false} RefundIsEarned(states: seq<Instance>, ops: seq<Op>, from: nat, n: nat)
    requires Run(states, ops) && from <= n <= |ops| && forall k :: from <= k < n ==> !ops[k].OpRollback?
    ensures states[n].refund == states[from].refund + Earned(ops, from, n)
    decreases n
  {
    hide Step;
    if from < n {
      RefundIsEarned(states, ops, from, n - 1);
      StepEarns(states[n - 1], ops[n - 1], states[n - 1 + 1]);
    }
  }

  lemma StepEarns(s: Instance, op: Op, s': Instance)
    requires Step(s, op, s') && !op.OpRollback?
    ensures s'.refund == s.refund + if op.OpRefund? then op.amount else 0
  {
    hide GrowsTo, CalculateMemoryExpansionCost, Valid;
  }

  /** A rollback returns to the refund at the push of the active message, whatever ran since. */
  lemma RollbackForgets(states: seq<Instance>, ops: seq<Op>, p: nat, n: nat)
    requires Run(states, ops) && p < n < |ops| && ops[p].OpPush? && ops[n].OpRollback?
    requires Depth(ops, n) == Depth(ops, p) + 1 && forall k :: p < k <= n ==> Depth(ops, k) >= Depth(ops, p) + 1
    ensures states[n + 1].refund == states[p].refund
  {
    hide Step, KeepsBelow;
    assert Depth(ops, p + 1) == Depth(ops, p) + 1;
    PushSnapshots(states[p], ops[p], states[p + 1]);
    ParkedFramesUntouched(states, ops, p + 1, n);
    RollbackToSnapshot(states[p + 1], states[n], states[n + 1]);
  }

  lemma PushSnapshots(s: Instance, op: Op, s': Instance)
    requires Step(s, op, s') && op.OpPush?
    ensures |s'.messages| > 0 && s'.refunds == s.refunds + [s.refund]
  {
  }

  lemma RollbackToSnapshot(pushed: Instance, s: Instance, s': Instance)
    requires KeepsBelow(pushed, s, 0) && |pushed.refunds| > 0 && Step(s, OpRollback, s')
    ensures s'.refund == pushed.refunds[|pushed.refunds| - 1]
  {
    assert s.refunds == pushed.refunds;
  }

  /** A nested call that succeeds keeps what it earned; one that rolls back before it is popped earns nothing. */
  lemma NestedCallRefund(states: seq<Instance>, ops: seq<Op>)
    requires Run(states, ops) && |ops| >= 2 && ops[0].OpPush? && ops[|ops| - 1].OpPop?
    requires forall k :: 1 <= k < |ops| ==> Depth(ops, k) >= 1
    requires Depth(ops, |ops|) == 0
    ensures (forall k :: 0 <= k < |ops| ==> !ops[k].OpRollback?) ==>
              states[|ops|].refund == states[0].refund + Earned(ops, 0, |ops|)
    ensures ops[|ops| - 2].OpRollback? ==> states[|ops|].refund == states[0].refund
  {
    hide Step;
    if forall k :: 0 <= k < |ops| ==> !ops[k].OpRollback? {
      RefundIsEarned(states, ops, 0, |ops|);
    } else if ops[|ops| - 2].OpRollback? {
      var n := |ops| - 2;
      assert Depth(ops, 0) == 0 && Depth(ops, n + 2) == Depth(ops, n + 1) - 1 && Depth(ops, n + 1) == Depth(ops, n);
      RollbackForgets(states, ops, 0, n);
      RefundIsEarned(states, ops, n + 1, n + 2);
      assert Earned(ops, n + 1, n + 2) == Earned(ops, n + 1, n + 1) + 0;
    }
  }

  /** A message starts with no memory in use, its own gas and the refund as it is. */
  lemma CalleeStartsEmpty(s: Instance, gas: nat)
    requires Valid(s)
    ensures var p := Push(s, gas);
            Valid(p) && p.current.View() == [] && Gas(p) == gas && p.refund == s.refund && |p.messages| == |s.messages| + 1
  {
  }

  /** Expansion for one 64-bit range, with its overflow and size checks; `None` is the out-of-gas exception. */
  function ExpandChecked(m: Memory, a: Access): (r: Option<Memory>)
    requires WellSized(m.bytes)
  {
    if a.size == 0 then Some(m)
    else if a.offset > TWO64 - 1 - a.size then None
    else ExpandAndCharge(m, a.offset + a.size)
  }

  /** Expansion for two ranges at once: checked together, grown once to the larger need. */
  function ExpandChecked2(m: Memory, a: Access, b: Access): (r: Option<Memory>)
    requires WellSized(m.bytes)
  {
    if a.size == 0 && b.size == 0 then Some(m)
    else if b.size == 0 then ExpandChecked(m, a)
    else if a.size == 0 then ExpandChecked(m, b)
    else if a.offset > TWO64 - 1 - a.size || b.offset > TWO64 - 1 - b.size then None
    else ExpandAndCharge(m, Max(a.offset + a.size, b.offset + b.size))
  }

  predicate Is64(a: Access) {
    a.offset < TWO64 && a.size < TWO64
  }

  lemma ExpandCheckedIsAccess(m: Memory, a: Access)
    requires WellSized(m.bytes) && Is64(a)
    ensures ExpandChecked(m, a) == CheckExpand(m, a.offset, a.size)
  {
  }

  lemma MaxNeedTwo(a: Access, b: Access)
    ensures MaxNeed([a, b]) == Max(Needs(a), Needs(b))
  {
    assert [a, b][1..] == [b] && [b][1..] == [];
    assert MaxNeed([b]) == Max(Needs(b), MaxNeed([]));
  }

  lemma ExpandBeyondLimit(m: Memory, need: nat)
    requires WellSized(m.bytes) && need > MAX_REQUIRED_MEMORY_SIZE
    ensures ExpandAndCharge(m, need) == None
  {
  }

  /** Growing once for two non-empty ranges is running both accesses. */
  lemma BothAsOne(m: Memory, a: Access, b: Access)
    requires WellSized(m.bytes) && Is64(a) && Is64(b) && a.size != 0 && b.size != 0
    ensures ExpandChecked2(m, a, b) == RunAccesses(m, [a, b])
  {
    hide RunAccesses, ExpandAndCharge, MaxNeed, Grown, MemoryCost;
    MemoryGasPathIndependent(m, [a, b]);
    MaxNeedTwo(a, b);
    var need := Max(Needs(a), Needs(b));
    if need <= MAX_REQUIRED_MEMORY_SIZE {
      ExpandExact(m, need);
    } else {
      ExpandBeyondLimit(m, need);
    }
  }

  lemma RunTwo(m: Memory, a: Access, b: Access)
    requires WellSized(m.bytes)
    ensures var first := CheckExpand(m, a.offset, a.size);
            (first.Some? ==> WellSized(first.value.bytes))
            && RunAccesses(m, [a, b]) == if first.None? then None else CheckExpand(first.value, b.offset, b.size)
  {
    hide CheckExpand;
    CheckExpandExact(m, a);
    assert [a, b][1..] == [b] && [b][1..] == [];
    if CheckExpand(m, a.offset, a.size).Some? {
      var m1 := CheckExpand(m, a.offset, a.size).value;
      CheckExpandExact(m1, b);
      assert RunAccesses(m1, [b]) == CheckExpand(m1, b.offset, b.size);
    }
  }

  /** Growing once for two ranges succeeds, charges and grows exactly as growing for each in turn. */
  lemma TwoRangesAsSequential(m: Memory, a: Access, b: Access)
    requires WellSized(m.bytes) && Is64(a) && Is64(b)
    ensures var first := ExpandChecked(m, a);
            (first.Some? ==> WellSized(first.value.bytes))
            && ExpandChecked2(m, a, b) == if first.None? then None else ExpandChecked(first.value, b)
  {
    RunTwo(m, a, b);
    ExpandCheckedIsAccess(m, a);
    if a.size != 0 && b.size != 0 {
      BothAsOne(m, a, b);
      hide ExpandChecked2, RunAccesses, CheckExpand, ExpandChecked;
      if ExpandChecked(m, a).Some? {
        ExpandCheckedIsAccess(ExpandChecked(m, a).value, b);
      }
    }
  }

  /** What the running program sees: its bytes and its gas. */
  function Visible(s: Instance): (m: Memory)
    requires Valid(s)
    ensures WellSized(m.bytes)
  {
    Memory(s.current.View(), Gas(s))
  }

  /** An expansion of the instance is the interpreter's expansion of what the program sees. */
  lemma ExpandsToVisible(s: Instance, required: nat, r: Option<Instance>)
    requires Valid(s) && |s.messages| > 0 && required <= MAX_REQUIRED_MEMORY_SIZE && ExpandsTo(s, required, r)
    ensures var e := ExpandAndCharge(Visible(s), required);
            (e.Some? <==> r.Some?) && (r.Some? ==> Valid(r.value) && Visible(r.value) == e.value)
  {
    AlignWithinLimit(required);
    ExpandExact(Visible(s), required);
    if r.Some? {
      assert Zeros(r.value.current.size - s.current.size) == Zeros(Max(s.current.size, Align32(required)) - s.current.size);
    }
  }

  lemma StackDepths(s: Instance)
    requires Valid(s)
    ensures |s.saved| == (if |s.messages| == 0 then 0 else |s.messages| - 1) && |s.refunds| == |s.messages|
  {
  }

  lemma PopKeepsValid(s: Instance)
    requires Valid(s)
    ensures Valid(Pop(s))
  {
  }

  class Message {
    var gas: nat
    constructor (gas: nat)
      ensures this.gas == gas
    {
      this.gas := gas;
    }
  }

  datatype SavedMemory = SavedMemory(data: array?<byte>, size: nat)

  /** The instance object. Buffers are never shared between frames. */
  class EVMInstance {
    var memory: array?<byte>
    var memorySize: nat
    var memoryStack: seq<SavedMemory>
    var messageStack: seq<Message>
    var gasRefundStack: seq<int>
    var gas: nat
    var gasRefund: int

    ghost predicate Separate()
      reads this
    {
      && (forall i, j :: 0 <= i < j < |memoryStack| && memoryStack[i].data != null ==>
            memoryStack[i].data != memoryStack[j].data)
      && (forall i :: 0 <= i < |memoryStack| && memory != null ==> memoryStack[i].data != memory)
      && (forall i, j :: 0 <= i < j < |messageStack| ==> messageStack[i] != messageStack[j])
    }

    ghost function Buffers(): set<object>
      reads this
    {
      (set i | 0 <= i < |memoryStack| && memoryStack[i].data != null :: memoryStack[i].data as object)
      + (if memory == null then {} else {memory})
    }

    ghost function Owned(): set<object>
      reads this
    {
      Buffers() + set i | 0 <= i < |messageStack| :: messageStack[i]
    }

    ghost function FrameOf(data: array?<byte>, size: nat): (f: Frame)
      reads data
    {
      Frame(if data == null then None else Some(data[..]), size)
    }

    ghost function State(): (s: Instance)
      reads this, Owned()
    {
      Instance(
        FrameOf(memory, memorySize),
        seq(|memoryStack|, i requires 0 <= i < |memoryStack| reads this, Owned() => FrameOf(memoryStack[i].data, memoryStack[i].size)),
        seq(|messageStack|, i requires 0 <= i < |messageStack| reads this, Owned() => messageStack[i].gas),
        gasRefundStack, gasRefund)
    }

    ghost predicate Ok()
      reads this, Owned()
    {
      Separate() && Valid(State()) && gas == Gas(State())
    }

    constructor ()
      ensures Ok() && State() == Instance(Frame(None, 0), [], [], [], 0)
    {
      memory, memorySize, memoryStack := null, 0, [];
      messageStack, gasRefundStack := [], [];
      gas, gasRefund := 0, 0;
    }

    method PushMessage(msg: Message)
      requires Ok() && msg !in messageStack
      modifies this
      ensures Ok() && State() == Push(old(State()), msg.gas) && gasRefund == old(gasRefund)
    {
      if |messageStack| == 0 {
        memoryStack := [];
      } else {
        memoryStack := memoryStack + [SavedMemory(memory, memorySize)];
        memory := null;
      }
      memorySize := 0;
      messageStack := messageStack + [msg];
      gasRefundStack := gasRefundStack + [gasRefund];
      gas := msg.gas;
      assert State().saved == Push(old(State()), msg.gas).saved;
      assert State().messages == Push(old(State()), msg.gas).messages;
    }

    method PopMessage()
      requires Ok()
      modifies this
      ensures Ok() && State() == Pop(old(State())) && gasRefund == old(gasRefund)
    {
      hide Valid;
      ghost var before := State();
      StackDepths(before);
      PopKeepsValid(before);
      if |messageStack| > 0 {
        messageStack := messageStack[..|messageStack| - 1];
      }
      if |gasRefundStack| > 0 {
        gasRefundStack := gasRefundStack[..|gasRefundStack| - 1];
      }
      if |memoryStack| > 0 {
        memory := memoryStack[|memoryStack| - 1].data;
        memorySize := memoryStack[|memoryStack| - 1].size;
        memoryStack := memoryStack[..|memoryStack| - 1];
      } else {
        memorySize := 0;
      }
      gas := if |messageStack| == 0 then 0 else messageStack[|messageStack| - 1].gas;
      assert State().saved == Pop(before).saved;
      assert State().messages == Pop(before).messages;
      assert State() == Pop(before);
    }

    method AddGasRefund(amount: int)
      requires Ok()
      modifies `gasRefund
      ensures Ok() && State() == old(State()).(refund := old(gasRefund) + amount)
    {
      gasRefund := gasRefund + amount;
      assert State().saved == old(State()).saved && State().messages == old(State()).messages;
    }

    method RestoreGasRefundSnapshot()
      requires Ok()
      modifies `gasRefund
      ensures Ok() && State() == Rollback(old(State()))
    {
      if |gasRefundStack| > 0 {
        gasRefund := gasRefundStack[|gasRefundStack| - 1];
      }
      assert State().saved == old(State()).saved && State().messages == old(State()).messages;
    }

    /** Charge the active message; `false` stands for the exception the source throws. */
    method ChargeGas(cost: nat) returns (ok: bool)
      requires Ok() && |messageStack| > 0
      modifies this`gas, messageStack[|messageStack| - 1]
      ensures Ok() && ok == Charge(old(State()), cost).Some?
      ensures State() == if ok then Charge(old(State()), cost).value else old(State())
    {
      if gas < cost {
        return false;
      }
      var msg := messageStack[|messageStack| - 1];
      ghost var before := State();
      gas := gas - cost;
      msg.gas := gas;
      assert State().saved == before.saved;
      assert State().messages == before.messages[|messageStack| - 1 := gas];
      return true;
    }

    /**
     Grow to `required` bytes: charge, allocate a buffer if there is none, and clear exactly
     the newly used part.
     */
    method ExpandMemory(required: nat) returns (ok: bool)
      requires Ok() && |messageStack| > 0 && required <= MAX_REQUIRED_MEMORY_SIZE
      modifies this, messageStack[|messageStack| - 1], Buffers()
      ensures Ok() && messageStack == old(messageStack)
      ensures ok ==> ExpandsTo(old(State()), required, Some(State()))
      ensures !ok ==> ExpandsTo(old(State()), required, None) && State() == old(State())
    {
      AlignWithinLimit(required);
      var newSize := Align32(required);
      var charged := ChargeGas(CalculateMemoryExpansionCost(memorySize, newSize));
      if !charged {
        return false;
      }
      if newSize > memorySize {
        Grow(newSize);
      }
      return true;
    }

    /** Use `newSize` bytes of the buffer, allocating it first if need be, and clear the new ones. */
    method Grow(newSize: nat)
      requires Ok() && memorySize < newSize <= MAX_REQUIRED_MEMORY_SIZE && newSize % 32 == 0
      modifies this`memory, this`memorySize, Buffers()
      ensures Ok() && messageStack == old(messageStack)
      ensures State() == old(State()).(current := State().current)
      ensures GrowsTo(old(State()).current, State().current, newSize)
    {
      ghost var before := State();
      if memory == null {
        memory := new byte[MAX_REQUIRED_MEMORY_SIZE];
      }
      ghost var view := memory[..memorySize];
      forall i | memorySize <= i < newSize {
        memory[i] := 0;
      }
      memorySize := newSize;
      assert memory[..newSize] == view + Zeros(newSize - old(memorySize));
      assert State().saved == before.saved;
      assert State().messages == before.messages;
    }
 
    method ExpandMemoryChecked(a: Access) returns (ok: bool)
      requires Ok() && |messageStack| > 0 && Is64(a)
      modifies this, messageStack[|messageStack| - 1], Buffers()
      ensures Ok() && ok == ExpandChecked(Visible(old(State())), a).Some?
      ensures ok ==> Visible(State()) == ExpandChecked(Visible(old(State())), a).value
    {
      if a.size == 0 {
        return true;
      }
      if a.offset > TWO64 - 1 - a.size || a.offset + a.size > MAX_REQUIRED_MEMORY_SIZE {
        return false;
      }
      ghost var before := State();
      ok := ExpandMemory(a.offset + a.size);
      ExpandsToVisible(before, a.offset + a.size, if ok then Some(State()) else None);
    }

    /** Expansion for two ranges, as copies between two memory areas need it. */
    method ExpandMemoryChecked2(a: Access, b: Access) returns (ok: bool)
      requires Ok() && |messageStack| > 0 && Is64(a) && Is64(b)
      modifies this, messageStack[|messageStack| - 1], Buffers()
      ensures Ok() && ok == ExpandChecked2(Visible(old(State())), a, b).Some?
      ensures ok ==> Visible(State()) == ExpandChecked2(Visible(old(State())), a, b).value
    {
      if a.size == 0 && b.size == 0 {
        return true;
      }
      if b.size == 0 {
        ok := ExpandMemoryChecked(a);
        return;
      }
      if a.size == 0 {
        ok := ExpandMemoryChecked(b);
        return;
      }
      if a.offset > TWO64 - 1 - a.size || b.offset > TWO64 - 1 - b.size {
        return false;
      }
      var required := Max(a.offset + a.size, b.offset + b.size);
      if required > MAX_REQUIRED_MEMORY_SIZE {
        return false;
      }
      ghost var before := State();
      ok := ExpandMemory(required);
      ExpandsToVisible(before, required, if ok then Some(State()) else None);
    }
  }
}
