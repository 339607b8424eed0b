/**
 Gas of message calls and contract creation (EIP-150): what is charged before the call,
 what the callee is given, and what the caller is left with.

 The host is a function from the gas and input it is given to a reply.
 */
module CallGas {
  import opened Basics
  import opened Bytecode
  import opened PushDecoding
  import opened MemoryGas
  import opened Semantics
  import opened StorageGas

  const ADDITIONAL_COLD_ACCOUNT_ACCESS_COST: nat := 2500
  const COLD_ACCOUNT_ACCESS_COST: nat := 2600
  const CALL_VALUE_COST: nat := 9000
  const ACCOUNT_CREATION_COST: nat := 25000
  const CALL_GAS_STIPEND: nat := 2300
  const MAX_SIZE_OF_INITCODE: nat := 0xC000

  datatype CallKind = Call | CallCode | DelegateCall | StaticCall {
    predicate HasValueArgs() {
      Call? || CallCode?
    }
  }

  /** Position of a revision in the upgrade order. */
  function Ordinal(rev: Revision): (n: nat) {
    match rev
    case Frontier => 0 case Homestead => 1 case TangerineWhistle => 2 case SpuriousDragon => 3
    case Byzantium => 4 case Constantinople => 5 case Petersburg => 6 case Istanbul => 7
    case Berlin => 8 case London => 9 case Paris => 10 case Shanghai => 11
    case Cancun => 12 case Prague => 13 case Osaka => 14 case Experimental => 15
  }

  predicate AtLeast(rev: Revision, floor: Revision) {
    Ordinal(rev) >= Ordinal(floor)
  }

  datatype HostReply = HostReply(success: bool, gasLeft: int, output: seq<byte>)

  /** What the handler asks the host about the callee and the caller. */
  datatype CallContext = CallContext(
    rev: Revision, kind: CallKind, staticMode: bool, depth: nat,
    coldDest: bool, delegation: Option<bool>, destExists: bool, callerBalance: word,
    call: (nat, seq<byte>) -> HostReply)

  datatype CallArgs = CallArgs(gas: word, value: word, input: Access, output: Access)

  datatype CallResult =
    | CallFail(error: Error)
    | LightFailure(gas: nat, memory: seq<byte>)
    | Called(gas: nat, memory: seq<byte>, success: bool, calleeGas: nat)

  function Charge(gas: nat, cost: nat): (r: Option<nat>) {
    if gas < cost then None else Some(gas - cost)
  }

  function ColdCost(c: CallContext): (n: nat) {
    if AtLeast(c.rev, Berlin) && c.coldDest then ADDITIONAL_COLD_ACCOUNT_ACCESS_COST else 0
  }

  /** EIP-7702: resolving a delegation is charged as an access of the delegate. */
  function DelegationCost(c: CallContext): (n: nat) {
    if AtLeast(c.rev, Prague) && c.delegation.Some? then
      if c.delegation.value then COLD_ACCOUNT_ACCESS_COST else WARM_STORAGE_READ_COST
    else 0
  }

  function ValueCost(c: CallContext, value: word): (n: nat) {
    if !c.kind.HasValueArgs() then 0
    else
      (if value != 0 then CALL_VALUE_COST else 0) +
      (if c.kind.Call? && (value != 0 || !AtLeast(c.rev, SpuriousDragon)) && !c.destExists
       then ACCOUNT_CREATION_COST else 0)
  }

  function Stipend(c: CallContext, value: word): (n: nat) {
    if c.kind.HasValueArgs() && value != 0 then CALL_GAS_STIPEND else 0
  }

  /** Charges for reaching the callee's code. */
  function AccessCharge(c: CallContext, gas: nat): (r: Option<nat>) {
    match Charge(gas, ColdCost(c))
    case None => None
    case Some(g) => Charge(g, DelegationCost(c))
  }

  /** Charges for the memory of input and output, and for the value. */
  function RangesAndValue(c: CallContext, a: CallArgs, m: Memory): (r: Option<Memory>)
    requires WellSized(m.bytes)
  {
    match RunAccesses(m, [a.input, a.output])
    case None => None
    case Some(m1) =>
      match Charge(m1.gas, ValueCost(c, a.value))
      case None => None
      case Some(g) => Some(Memory(m1.bytes, g))
  }

  /** All charges before the call. */
  function Upfront(c: CallContext, a: CallArgs, m: Memory): (r: Option<Memory>)
    requires WellSized(m.bytes)
  {
    match AccessCharge(c, m.gas)
    case None => None
    case Some(g) => RangesAndValue(c, a, Memory(m.bytes, g))
  }

  predicate ViolatesStaticMode(c: CallContext, a: CallArgs) {
    c.kind.Call? && a.value != 0 && c.staticMode
  }

  /** The 64-bit form of a gas argument: anything larger saturates. */
  function ToUint64(w: word): (r: nat)
    ensures r < TWO64
  {
    if w >= TWO64 then TWO64 - 1 else w
  }

  /** What the callee is given, stipend not counted: all but a 64th from Tangerine Whistle on. */
  function Forwarded(rev: Revision, requested: word, gas: nat): (r: Option<nat>) {
    var g := ToUint64(requested);
    if AtLeast(rev, TangerineWhistle) then
      var cap := gas - gas / 64;
      Some(if g < cap then g else cap)
    else if g > gas then None
    else Some(g)
  }

  /** Copy as much of the reply as fits the output range. */
  function CopyOutput(bytes: seq<byte>, output: Access, reply: seq<byte>): (r: seq<byte>)
    requires output.size != 0 ==> output.offset + output.size <= |bytes|
    ensures |r| == |bytes|
  {
    var n := if output.size < |reply| then output.size else |reply|;
    if n == 0 then bytes else bytes[..output.offset] + reply[..n] + bytes[output.offset + n..]
  }

  /** What the host answers when given `gas`, once the upfront charges are paid. */
  function Reply(c: CallContext, a: CallArgs, m: Memory, gas: nat): (r: HostReply)
    requires WellSized(m.bytes) && Upfront(c, a, m).Some?
  {
    UpfrontGrants(c, a, m);
    c.call(gas, Slice(Upfront(c, a, m).value.bytes, a.input.offset, a.input.size))
  }

  /** Gas the callee consumed: a reply that reports more than it was given counts as none. */
  function Used(given: nat, reply: HostReply): (n: nat)
    ensures n <= given
  {
    var left := if reply.gasLeft > 0 then reply.gasLeft else 0;
    if given > left then given - left else 0
  }

  function DoCall(c: CallContext, a: CallArgs, m: Memory): (r: CallResult)
    requires WellSized(m.bytes)
  {
    if AccessCharge(c, m.gas).None? then CallFail(OutOfGas)
    else if ViolatesStaticMode(c, a) then CallFail(StaticModeViolation)
    else
      match Upfront(c, a, m)
      case None => CallFail(OutOfGas)
      case Some(m1) =>
        match Forwarded(c.rev, a.gas, m1.gas)
        case None => CallFail(OutOfGas)
        case Some(forwarded) =>
          var stipend := Stipend(c, a.value);
          var gas, calleeGas := m1.gas + stipend, forwarded + stipend;
          if (c.kind.HasValueArgs() && a.value != 0 && c.callerBalance < a.value) || c.depth >= MAXSTACK then
            LightFailure(gas, m1.bytes)
          else
            UpfrontGrants(c, a, m);
            var reply := Reply(c, a, m, calleeGas);
            match Charge(gas, Used(calleeGas, reply))
            case None => CallFail(OutOfGas)
            case Some(g) => Called(g, CopyOutput(m1.bytes, a.output, reply.output), reply.success, calleeGas)
  }

  /** After the upfront charges both ranges are in bounds and no gas was gained. */
  lemma UpfrontGrants(c: CallContext, a: CallArgs, m: Memory)
    requires WellSized(m.bytes) && Upfront(c, a, m).Some?
    ensures var m1 := Upfront(c, a, m).value;
            && WellSized(m1.bytes) && m1.gas + ValueCost(c, a.value) <= m.gas
            && (a.input.size != 0 ==> a.input.offset + a.input.size <= |m1.bytes|)
            && (a.output.size != 0 ==> a.output.offset + a.output.size <= |m1.bytes|)
  {
    var accesses := [a.input, a.output];
    var start := Memory(m.bytes, AccessCharge(c, m.gas).value);
    MemoryGasPathIndependent(start, accesses);
    var grown := Grown(m.bytes, MaxNeed(accesses));
    MemoryCostMonotone(|m.bytes| / 32, |grown| / 32);
    assert Needs(accesses[0]) <= MaxNeed(accesses) && Needs(accesses[1]) <= MaxNeed(accesses);
  }

  /** What a call costs before it is made, item by item. */
  function Bill(c: CallContext, a: CallArgs, m: Memory): (n: nat) {
    var grown := Grown(m.bytes, MaxNeed([a.input, a.output]));
    MemoryCostMonotone(|m.bytes| / 32, |grown| / 32);
    ColdCost(c) + DelegationCost(c) + (MemoryCost(|grown| / 32) - MemoryCost(|m.bytes| / 32)) + ValueCost(c, a.value)
  }

  /** The items: EIP-2929 cold access, EIP-7702 delegation, value transfer and new account. */
  lemma BillItems(c: CallContext, a: CallArgs, m: Memory)
    ensures var grown := Grown(m.bytes, MaxNeed([a.input, a.output]));
            var pays := (c.kind.Call? || c.kind.CallCode?) && a.value != 0;
            Bill(c, a, m) ==
            MemoryCost(|grown| / 32) - MemoryCost(|m.bytes| / 32)
            + (if AtLeast(c.rev, Berlin) && c.coldDest then 2500 else 0)
            + (if !AtLeast(c.rev, Prague) || c.delegation.None? then 0 else if c.delegation.value then 2600 else 100)
            + (if pays then 9000 else 0)
            + (if c.kind.Call? && !c.destExists && (pays || !AtLeast(c.rev, SpuriousDragon)) then 25000 else 0)
  {
    hide MemoryCost, Grown, MaxNeed;
  }

  /** The charges go through in their order exactly when the whole bill is covered and both ranges fit. */
  lemma UpfrontIsBill(c: CallContext, a: CallArgs, m: Memory)
    requires WellSized(m.bytes)
    ensures var need := MaxNeed([a.input, a.output]);
            && (Upfront(c, a, m).Some? <==> need <= MAX_REQUIRED_MEMORY_SIZE && Bill(c, a, m) <= m.gas)
            && (Upfront(c, a, m).Some? ==> Upfront(c, a, m).value == Memory(Grown(m.bytes, need), m.gas - Bill(c, a, m)))
  {
    hide RunAccesses, MaxNeed, Grown, MemoryCost;
    var accesses := [a.input, a.output];
    MemoryCostMonotone(|m.bytes| / 32, |Grown(m.bytes, MaxNeed(accesses))| / 32);
    var g := AccessCharge(c, m.gas);
    if g.Some? {
      MemoryGasPathIndependent(Memory(m.bytes, g.value), accesses);
    }
  }

  lemma ForwardedWithinGas(rev: Revision, requested: word, gas: nat)
    ensures var f := Forwarded(rev, requested, gas);
            f.Some? ==> f.value <= gas && (AtLeast(rev, TangerineWhistle) ==> f.value + gas / 64 <= gas)
  {
  }

  /** A call never leaves the caller with more gas than it had, the stipend notwithstanding. */
  lemma CallAddsNoGas(c: CallContext, a: CallArgs, m: Memory)
    requires WellSized(m.bytes)
    ensures match DoCall(c, a, m)
            case LightFailure(g, bytes) => g <= m.gas && WellSized(bytes)
            case Called(g, bytes, _, _) => g <= m.gas && WellSized(bytes)
            case CallFail(_) => true
  {
    if Upfront(c, a, m).Some? {
      UpfrontGrants(c, a, m);
    }
  }

  /**
   The charge after a call cannot fail: once the upfront charges and the gas request are
   met, the call goes through in every revision, and from Tangerine Whistle on the caller
   keeps a 64th of its gas and the callee gets no more than the rest plus the stipend.
   */
  lemma PostCallChargeCannotFail(c: CallContext, a: CallArgs, m: Memory)
    requires WellSized(m.bytes) && Upfront(c, a, m).Some?
    requires !ViolatesStaticMode(c, a)
    ensures var m1 := Upfront(c, a, m).value;
            var r := DoCall(c, a, m);
            && (r.CallFail? <==> Forwarded(c.rev, a.gas, m1.gas).None?)
            && (r.Called? && AtLeast(c.rev, TangerineWhistle) ==>
                  r.gas >= m1.gas / 64 && r.calleeGas <= m1.gas - m1.gas / 64 + Stipend(c, a.value))
            && (r.Called? ==> r.calleeGas <= m1.gas + Stipend(c, a.value))
  {
    UpfrontGrants(c, a, m);
    ForwardedWithinGas(c.rev, a.gas, Upfront(c, a, m).value.gas);
  }

  /** Gas is split, not made: what the caller has left and what the callee consumed add up to what there was. */
  lemma CallConservesGas(c: CallContext, a: CallArgs, m: Memory)
    requires WellSized(m.bytes) && DoCall(c, a, m).Called?
    ensures Upfront(c, a, m).Some?
    ensures var r := DoCall(c, a, m);
            r.gas + Used(r.calleeGas, Reply(c, a, m, r.calleeGas)) == Upfront(c, a, m).value.gas + Stipend(c, a.value)
  {
  }

  /** `n` is the largest number that is above neither bound. */
  predicate LargestBelow(n: nat, a: int, b: int) {
    n <= a && n <= b && (n == a || n == b)
  }

  /**
   What the callee is given besides the stipend, once the upfront charges leave `g`. From
   Tangerine Whistle on it is the most that is neither above the request nor touches the
   caller's 64th, and the call cannot fail for it. Before, it is the request, and the call
   fails exactly when that is more than there is. A request of 2^64 or more counts as the
   largest 64-bit number.
   */
  lemma CalleeGasExact(c: CallContext, a: CallArgs, m: Memory)
    requires WellSized(m.bytes) && Upfront(c, a, m).Some? && !ViolatesStaticMode(c, a)
    ensures var g, r := Upfront(c, a, m).value.gas, DoCall(c, a, m);
            var stipend := if (c.kind.Call? || c.kind.CallCode?) && a.value != 0 then 2300 else 0;
            var request := if a.gas < TWO64 then a.gas else TWO64 - 1;
            if AtLeast(c.rev, TangerineWhistle) then
              && !r.CallFail?
              && (r.Called? ==> r.calleeGas >= stipend
                                && LargestBelow(r.calleeGas - stipend, request, g - g / 64))
            else
              && (r.CallFail? <==> request > g)
              && (r.Called? ==> r.calleeGas == request + stipend)
  {
    UpfrontGrants(c, a, m);
    ForwardedWithinGas(c.rev, a.gas, Upfront(c, a, m).value.gas);
  }

  /** The same for gas that fits 64 bits, with the request as the program made it. */
  lemma CalleeGasOf64Bits(c: CallContext, a: CallArgs, m: Memory)
    requires WellSized(m.bytes) && Upfront(c, a, m).Some? && !ViolatesStaticMode(c, a) && m.gas < TWO64 - 1
    ensures var g, r := Upfront(c, a, m).value.gas, DoCall(c, a, m);
            var stipend := if (c.kind.Call? || c.kind.CallCode?) && a.value != 0 then 2300 else 0;
            if AtLeast(c.rev, TangerineWhistle) then
              && !r.CallFail?
              && (r.Called? ==> r.calleeGas >= stipend
                                && LargestBelow(r.calleeGas - stipend, a.gas, g - g / 64))
            else
              && (r.CallFail? <==> a.gas > g)
              && (r.Called? ==> r.calleeGas == a.gas + stipend)
  {
    hide DoCall, Upfront;
    UpfrontGrants(c, a, m);
    CalleeGasExact(c, a, m);
  }

  /**
   A call fails, with all the frame's gas, in three cases: it would transfer value in static
   mode, the upfront charges are not covered, or, before Tangerine Whistle, the request is not.
   */
  lemma CallFailsIff(c: CallContext, a: CallArgs, m: Memory)
    requires WellSized(m.bytes)
    ensures DoCall(c, a, m).CallFail? <==>
            || (c.kind.Call? && a.value != 0 && c.staticMode)
            || Upfront(c, a, m).None?
            || (!AtLeast(c.rev, TangerineWhistle) && Upfront(c, a, m).value.gas < a.gas && Upfront(c, a, m).value.gas < TWO64 - 1)
  {
    if Upfront(c, a, m).Some? && !ViolatesStaticMode(c, a) {
      CalleeGasExact(c, a, m);
    }
  }

  /** A call that is not made: the value is not covered or the calls are too deep. The caller keeps the stipend. */
  lemma LightFailureIff(c: CallContext, a: CallArgs, m: Memory)
    requires WellSized(m.bytes) && Upfront(c, a, m).Some? && !DoCall(c, a, m).CallFail?
    ensures var m1, r := Upfront(c, a, m).value, DoCall(c, a, m);
            var pays := (c.kind.Call? || c.kind.CallCode?) && a.value != 0;
            && (r.LightFailure? <==> (pays && c.callerBalance < a.value) || c.depth >= 1024)
            && (r.LightFailure? ==> r.gas == m1.gas + (if pays then 2300 else 0) && r.memory == m1.bytes)
  {
  }

  /** `given` is the bytes of the range. */
  predicate BytesOf(bytes: seq<byte>, range: Access, given: seq<byte>) {
    && |given| == range.size
    && forall k: nat :: k < |given| ==> range.offset + k < |bytes| && given[k] == bytes[range.offset + k]
  }

  /**
   What a call does: the host is given the input bytes, as much of its output as fits is
   copied to the output range and no other byte changes, and of the gas given the caller
   gets back what the host reports as left, at most what it gave.
   */
  lemma CallEffect(c: CallContext, a: CallArgs, m: Memory)
    requires WellSized(m.bytes) && DoCall(c, a, m).Called?
    ensures Upfront(c, a, m).Some?
    ensures var m1, r := Upfront(c, a, m).value, DoCall(c, a, m);
            var stipend := if (c.kind.Call? || c.kind.CallCode?) && a.value != 0 then 2300 else 0;
            exists given ::
              && BytesOf(m1.bytes, a.input, given)
              && var reply := c.call(r.calleeGas, given);
              && r.success == reply.success && CopiesReply(m1.bytes, a.output, reply.output, r.memory)
              && r.gas == m1.gas + stipend - r.calleeGas + Between(0, reply.gasLeft, r.calleeGas)
  {
    UpfrontGrants(c, a, m);
    var m1, r := Upfront(c, a, m).value, DoCall(c, a, m);
    var given := Slice(m1.bytes, a.input.offset, a.input.size);
    var reply := Reply(c, a, m, r.calleeGas);
    assert BytesOf(m1.bytes, a.input, given);
    CopyOutputExact(m1.bytes, a.output, reply.output);
  }

  /** `x` brought between `lo` and `hi`. */
  function Between(lo: int, x: int, hi: int): (r: int)
    requires lo <= hi
  {
    if x < lo then lo else if x > hi then hi else x
  }

  /** The first bytes of the reply, as many as the range holds, are in it; all other bytes are as before. */
  ghost predicate CopiesReply(bytes: seq<byte>, output: Access, reply: seq<byte>, r: seq<byte>) {
    && |r| == |bytes|
    && forall i: nat :: i < |bytes| ==>
         r[i] == if output.offset <= i < output.offset + output.size && i - output.offset < |reply|
                 then reply[i - output.offset] else bytes[i]
  }

  lemma CopyOutputExact(bytes: seq<byte>, output: Access, reply: seq<byte>)
    requires output.size != 0 ==> output.offset + output.size <= |bytes|
    ensures CopiesReply(bytes, output, reply, CopyOutput(bytes, output, reply))
  {
  }

  datatype CreateContext = CreateContext(
    rev: Revision, create2: bool, staticMode: bool, depth: nat, balance: word,
    call: (nat, seq<byte>) -> HostReply)

  function InitCodeCost(c: CreateContext, size: word): (n: nat) {
    var perWord := (if c.create2 then 6 else 0) + (if AtLeast(c.rev, Shanghai) then 2 else 0);
    perWord * ToUint64((size + 31) % TWO256 / 32)
  }

  /** Gas given to the init code: all but a 64th from Tangerine Whistle on. */
  function CreateGas(rev: Revision, gas: nat): (n: nat) {
    if AtLeast(rev, TangerineWhistle) then gas - gas / 64 else gas
  }

  /** Charges before a creation: memory for the init code, then its size limit and word cost. */
  function CreateUpfront(c: CreateContext, init: Access, m: Memory): (r: Option<Memory>)
    requires WellSized(m.bytes)
  {
    match CheckExpand(m, init.offset, init.size)
    case None => None
    case Some(m1) =>
      if AtLeast(c.rev, Shanghai) && init.size > MAX_SIZE_OF_INITCODE then None
      else
        match Charge(m1.gas, InitCodeCost(c, init.size))
        case None => None
        case Some(gas) => Some(Memory(m1.bytes, gas))
  }

  lemma CreateUpfrontGrants(c: CreateContext, init: Access, m: Memory)
    requires WellSized(m.bytes) && CreateUpfront(c, init, m).Some?
    ensures var m1 := CreateUpfront(c, init, m).value;
            WellSized(m1.bytes) && m1.gas <= m.gas && (init.size != 0 ==> init.offset + init.size <= |m1.bytes|)
  {
    CheckExpandExact(m, init);
    MemoryCostMonotone(|m.bytes| / 32, |Grown(m.bytes, Needs(init))| / 32);
  }

  function DoCreate(c: CreateContext, value: word, init: Access, m: Memory): (r: CallResult)
    requires WellSized(m.bytes)
  {
    if c.staticMode then CallFail(StaticModeViolation)
    else
      match CreateUpfront(c, init, m)
      case None => CallFail(OutOfGas)
      case Some(m1) =>
        if c.depth >= MAXSTACK || (value != 0 && c.balance < value) then LightFailure(m1.gas, m1.bytes)
        else
          CreateUpfrontGrants(c, init, m);
          var calleeGas := CreateGas(c.rev, m1.gas);
          var reply := c.call(calleeGas, Slice(m1.bytes, init.offset, init.size));
          Called(m1.gas - Used(calleeGas, reply), m1.bytes, reply.success, calleeGas)
  }

  /** Creation adds no gas either, and from Tangerine Whistle on leaves the creator a 64th. */
  lemma CreateAddsNoGas(c: CreateContext, value: word, init: Access, m: Memory)
    requires WellSized(m.bytes) && CreateUpfront(c, init, m).Some? && !c.staticMode
    ensures var m1, r := CreateUpfront(c, init, m).value, DoCreate(c, value, init, m);
            && !r.CallFail? && r.gas <= m.gas && WellSized(r.memory)
            && (r.Called? && AtLeast(c.rev, TangerineWhistle) ==> r.gas >= m1.gas / 64)
  {
    CreateUpfrontGrants(c, init, m);
  }

  /** The charges before a creation, item by item: memory, and per word of init code the hash (CREATE2) and EIP-3860. */
  lemma CreateUpfrontIsBill(c: CreateContext, init: Access, m: Memory)
    requires WellSized(m.bytes)
    ensures var grown := Grown(m.bytes, Needs(init));
            var perWord := (if c.create2 then 6 else 0) + (if AtLeast(c.rev, Shanghai) then 2 else 0);
            var bill := MemoryCost(|grown| / 32) - MemoryCost(|m.bytes| / 32) + perWord * ((init.size + 31) / 32);
            var fits := Needs(init) <= MAX_REQUIRED_MEMORY_SIZE && (AtLeast(c.rev, Shanghai) ==> init.size <= 0xC000);
            && (CreateUpfront(c, init, m).Some? <==> fits && bill <= m.gas)
            && (CreateUpfront(c, init, m).Some? ==> CreateUpfront(c, init, m).value == Memory(grown, m.gas - bill))
  {
    hide MemoryCost, CheckExpand, Grown, InitCodeCost;
    CheckExpandExact(m, init);
    MemoryCostMonotone(|m.bytes| / 32, |Grown(m.bytes, Needs(init))| / 32);
    if Needs(init) <= MAX_REQUIRED_MEMORY_SIZE {
      InitCodeWords(c, init.size);
    }
  }

  lemma InitCodeWords(c: CreateContext, size: word)
    requires size <= MAX_REQUIRED_MEMORY_SIZE
    ensures InitCodeCost(c, size) ==
            ((if c.create2 then 6 else 0) + (if AtLeast(c.rev, Shanghai) then 2 else 0)) * ((size + 31) / 32)
  {
    assert ToUint64((size + 31) % TWO256 / 32) == (size + 31) / 32;
  }

  lemma CreateFailsIff(c: CreateContext, value: word, init: Access, m: Memory)
    requires WellSized(m.bytes)
    ensures DoCreate(c, value, init, m).CallFail? <==> c.staticMode || CreateUpfront(c, init, m).None?
  {
  }

  /** What a creation does: the host is given the init code and all the gas but, from Tangerine Whistle on, a 64th. */
  lemma CreateEffect(c: CreateContext, value: word, init: Access, m: Memory)
    requires WellSized(m.bytes) && CreateUpfront(c, init, m).Some? && !c.staticMode
    ensures var m1, r := CreateUpfront(c, init, m).value, DoCreate(c, value, init, m);
            && !r.CallFail?
            && (r.LightFailure? <==> c.depth >= 1024 || (value != 0 && c.balance < value))
            && (r.LightFailure? ==> r.gas == m1.gas && r.memory == m1.bytes)
            && (r.Called? ==> r.memory == m1.bytes
                              && r.calleeGas == m1.gas - if AtLeast(c.rev, TangerineWhistle) then m1.gas / 64 else 0)
            && (r.Called? ==>
                  exists given ::
                    && BytesOf(m1.bytes, init, given)
                    && var reply := c.call(r.calleeGas, given);
                       && r.success == reply.success
                       && r.gas == m1.gas - r.calleeGas + Between(0, reply.gasLeft, r.calleeGas))
  {
    CreateUpfrontGrants(c, init, m);
    var m1 := CreateUpfront(c, init, m).value;
    assert BytesOf(m1.bytes, init, Slice(m1.bytes, init.offset, init.size));
  }

  function ArgCount(kind: CallKind): (n: nat) {
    if kind.HasValueArgs() then 7 else 6
  }

  /** The operands of a call; the second is the callee, which the context describes. */
  function Operands(kind: CallKind, stack: seq<word>): (a: CallArgs)
    requires |stack| >= ArgCount(kind)
  {
    if kind.HasValueArgs() then
      CallArgs(Peek(stack, 1), Peek(stack, 3), Access(Peek(stack, 4), Peek(stack, 5)), Access(Peek(stack, 6), Peek(stack, 7)))
    else
      CallArgs(Peek(stack, 1), 0, Access(Peek(stack, 3), Peek(stack, 4)), Access(Peek(stack, 5), Peek(stack, 6)))
  }

  /**
   A call as a gas-sensitive handler of the interpreter: pop the arguments, push the success
   flag. No frame has a memory that is not well sized.
   */
  function CallHandler<W>(c: CallContext, stack: seq<word>, memory: seq<byte>, world: W, gas: nat): (r: Sensitive<W>) {
    var n := ArgCount(c.kind);
    if |stack| < n then SensitiveFail(StackUnderflow)
    else if !WellSized(memory) then SensitiveFail(OutOfGas)
    else
      var rest := Drop(stack, n);
      match DoCall(c, Operands(c.kind, stack), Memory(memory, gas))
      case CallFail(e) => SensitiveFail(e)
      case LightFailure(g, bytes) => SensitiveOk(g, rest + [0], bytes, world)
      case Called(g, bytes, success, _) => SensitiveOk(g, rest + [if success then 1 else 0], bytes, world)
  }

  /** The order of the operands on the stack, the top last, and where the success flag goes. */
  lemma CallHandlerOperands<W>(
    c: CallContext, base: seq<word>, outSize: word, outOffset: word, inSize: word, inOffset: word, value: word,
    dest: word, gas: word, memory: seq<byte>, world: W, left: nat)
    requires WellSized(memory)
    ensures var stack := base + [outSize, outOffset, inSize, inOffset]
                         + (if c.kind.Call? || c.kind.CallCode? then [value] else []) + [dest, gas];
            var a := CallArgs(gas, if c.kind.Call? || c.kind.CallCode? then value else 0,
                              Access(inOffset, inSize), Access(outOffset, outSize));
            var r, d := CallHandler(c, stack, memory, world, left), DoCall(c, a, Memory(memory, left));
            && (r.SensitiveFail? <==> d.CallFail?)
            && (d.LightFailure? ==> r == SensitiveOk(d.gas, base + [0], d.memory, world))
            && (d.Called? ==> r == SensitiveOk(d.gas, base + [if d.success then 1 else 0], d.memory, world))
  {
    hide DoCall;
    var stack := base + [outSize, outOffset, inSize, inOffset]
                 + (if c.kind.Call? || c.kind.CallCode? then [value] else []) + [dest, gas];
    assert Drop(stack, ArgCount(c.kind)) == base;
  }

  /** A call handler adds no gas, keeps the memory well sized and leaves the stack shorter. */
  lemma CallHandlerKeepsFrame<W>(c: CallContext, stack: seq<word>, memory: seq<byte>, world: W, gas: nat)
    ensures var r := CallHandler(c, stack, memory, world, gas);
            r.SensitiveOk? ==> r.gas <= gas && |r.stack| == |stack| - ArgCount(c.kind) + 1 && WellSized(r.memory)
  {
    if |stack| >= ArgCount(c.kind) && WellSized(memory) {
      CallAddsNoGas(c, Operands(c.kind, stack), Memory(memory, gas));
    }
  }

  function KindOf(op: byte): (k: Option<CallKind>) {
    if op == OP_CALL then Some(Call)
    else if op == OP_CALLCODE then Some(CallCode)
    else if op == OP_DELEGATECALL then Some(DelegateCall)
    else if op == OP_STATICCALL then Some(StaticCall)
    else None
  }

  /** An environment in which the four call opcodes are handled as above. */
  function WithCalls<W>(env: Env<W>, contexts: (CallKind, W) -> CallContext): (e: Env<W>) {
    env.(sensitive := (op: byte, st: seq<word>, mem: seq<byte>, w: W, g: nat) =>
      match KindOf(op)
      case Some(k) => CallHandler(contexts(k, w).(kind := k), st, mem, w, g)
      case None => env.sensitive(op, st, mem, w, g))
  }

  /** Such an environment is one the interpreter's theorems are about. */
  lemma CallsAreValid<W(!new)>(env: Env<W>, contexts: (CallKind, W) -> CallContext)
    requires ValidEnv(env)
    ensures ValidEnv(WithCalls(env, contexts))
  {
    hide CallHandler;
    var e := WithCalls(env, contexts);
    forall op: byte, st: seq<word>, mem: seq<byte>, w: W, g: nat
      ensures var r := e.sensitive(op, st, mem, w, g);
              && (r.SensitiveOk? ==> r.gas <= g && op != OP_SELFDESTRUCT)
              && (r.SensitiveOk? && |st| <= MAXSTACK && WellSized(mem) ==> |r.stack| <= MAXSTACK && WellSized(r.memory))
    {
      match KindOf(op)
      case Some(k) => CallHandlerKeepsFrame(contexts(k, w).(kind := k), st, mem, w, g);
      case None =>
    }
    assert SensitiveKeepsFrame(e);
    assert PlainKeepsFrame(e);
  }
}
