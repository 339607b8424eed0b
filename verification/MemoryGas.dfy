/**
 Gas for EVM memory expansion (Yellow Paper section 9.4 and Appendix H.1).

 The interpreter charges the difference of a quadratic cost at every access. The theorems
 here say what a whole sequence of accesses costs, when it succeeds, and what memory it
 leaves, independently of the order and the number of accesses.
 */
module MemoryGas {
  import opened Basics
  import opened PushDecoding

  const MAX_REQUIRED_MEMORY_SIZE: nat := 16 * 1024 * 1024

  /** C_mem of the Yellow Paper: 3 gas a word and a quadratic term. */
  function MemoryCost(words: nat): (c: nat) {
    words * words / 512 + 3 * words
  }

  /** The quadratic term is a 512th of the square, rounded down. */
  lemma MemoryCostRounds(words: nat)
    ensures var square := MemoryCost(words) - 3 * words;
            512 * square <= words * words < 512 * square + 512
  {
  }

  /** Memory is grown in whole words. */
  function Align32(size: nat): (a: nat)
    ensures a % 32 == 0 && size <= a < size + 32
  {
    (size + 31) / 32 * 32
  }

  /** The source's formula with its 64-bit intermediate results. */
  function CalculateMemoryExpansionCost(currentSize: nat, newSize: nat): (c: nat)
    requires currentSize < TWO64 && newSize < TWO64
  {
    if newSize <= currentSize then 0
    else
      var currentWords := ((currentSize + 31) % TWO64) / 32;
      var newWords := ((newSize + 31) % TWO64) / 32;
      (MemoryCost(newWords) % TWO64 - MemoryCost(currentWords) % TWO64) % TWO64
  }

  lemma SquareMonotone(a: nat, b: nat)
    requires a <= b
    ensures a * a <= b * b
  {
    assert b * b == a * a + (b - a) * (a + b);
  }

  lemma DivideMonotone(x: nat, y: nat)
    requires x <= y
    ensures x / 512 <= y / 512
  {
  }

  lemma MemoryCostMonotone(a: nat, b: nat)
    requires a <= b
    ensures MemoryCost(a) + 3 * (b - a) <= MemoryCost(b)
  {
    SquareMonotone(a, b);
    DivideMonotone(a * a, b * b);
  }

  lemma MemoryCostBound(words: nat)
    requires words <= 524288
    ensures MemoryCost(words) < TWO64
  {
    SquareMonotone(words, 524288);
  }

  lemma WordsOf(size: nat)
    requires size % 32 == 0 && size <= MAX_REQUIRED_MEMORY_SIZE
    ensures ((size + 31) % TWO64) / 32 == size / 32 <= 524288
  {
  }

  /** Within the 16 MiB limit no intermediate result wraps and the charge is an exact difference. */
  lemma ExpansionCostExact(current: nat, new': nat)
    requires current < new' <= MAX_REQUIRED_MEMORY_SIZE && current % 32 == 0 && new' % 32 == 0
    ensures CalculateMemoryExpansionCost(current, new') == MemoryCost(new' / 32) - MemoryCost(current / 32)
  {
    var cw, nw := current / 32, new' / 32;
    WordsOf(current);
    WordsOf(new');
    NoWrap(MemoryCost(cw), MemoryCost(nw)) by {
      MemoryCostBound(nw);
      MemoryCostMonotone(cw, nw);
    }
  }

  lemma NoWrap(a: nat, b: nat)
    requires a <= b < TWO64
    ensures (b % TWO64 - a % TWO64) % TWO64 == b - a
  {
  }

  datatype Memory = Memory(bytes: seq<byte>, gas: nat)

  /** Sizes reachable by expansion: whole words, at most 16 MiB. */
  predicate WellSized(bytes: seq<byte>) {
    |bytes| % 32 == 0 && |bytes| <= MAX_REQUIRED_MEMORY_SIZE
  }

  function Zeros(n: nat): (z: seq<byte>)
    ensures |z| == n && forall i :: 0 <= i < n ==> z[i] == 0
  {
    seq<byte>(n, _ => 0)
  }

  /** Charge for growing to `required` bytes and grow; `None` is out of gas. */
  function ExpandAndCharge(m: Memory, required: nat): (r: Option<Memory>)
    requires |m.bytes| < TWO64
  {
    if required > MAX_REQUIRED_MEMORY_SIZE then None
    else
      var size := Align32(required);
      var cost := CalculateMemoryExpansionCost(|m.bytes|, size);
      if m.gas < cost then None
      else if size > |m.bytes| then Some(Memory(m.bytes + Zeros(size - |m.bytes|), m.gas - cost))
      else Some(Memory(m.bytes, m.gas - cost))
  }

  /** Check a 256-bit offset with a 64-bit size. */
  function CheckExpand64(m: Memory, offset: word, size: nat): (r: Option<Memory>)
    requires |m.bytes| < TWO64 && size < TWO64
  {
    if offset > TWO64 - 1 then None
    else if offset > TWO64 - 1 - size then None
    else ExpandAndCharge(m, offset + size)
  }

  /** Check a 256-bit offset and size; an empty range needs nothing. */
  function CheckExpand(m: Memory, offset: word, size: word): (r: Option<Memory>)
    requires |m.bytes| < TWO64
  {
    if size == 0 then Some(m)
    else if size > TWO64 - 1 then None
    else CheckExpand64(m, offset, size)
  }

  datatype Access = Access(offset: word, size: word)

  /** Bytes an access needs; 0 for an empty range. */
  function Needs(a: Access): (n: nat) {
    if a.size == 0 then 0 else a.offset + a.size
  }

  function Max(a: nat, b: nat): nat {
    if a < b then b else a
  }

  /** The memory after growing to at least `needed` bytes, the old bytes kept and the new ones zero. */
  function Grown(bytes: seq<byte>, needed: nat): (r: seq<byte>)
    ensures |r| == Max(|bytes|, Align32(needed))
    ensures forall i :: 0 <= i < |r| ==> r[i] == if i < |bytes| then bytes[i] else 0
  {
    if Align32(needed) > |bytes| then bytes + Zeros(Align32(needed) - |bytes|) else bytes
  }

  /** One access succeeds exactly when the range fits the limit and the gas covers the cost difference. */
  lemma CheckExpandExact(m: Memory, a: Access)
    requires WellSized(m.bytes)
    ensures var grown := Grown(m.bytes, Needs(a));
            var cost := MemoryCost(|grown| / 32) - MemoryCost(|m.bytes| / 32);
            && (CheckExpand(m, a.offset, a.size).Some? <==> Needs(a) <= MAX_REQUIRED_MEMORY_SIZE && cost <= m.gas)
            && (CheckExpand(m, a.offset, a.size).Some? ==>
                  CheckExpand(m, a.offset, a.size).value == Memory(grown, m.gas - cost)
                  && WellSized(grown) && (a.size != 0 ==> a.offset + a.size <= |grown|))
  {
    var need := Needs(a);
    if a.size != 0 && need <= MAX_REQUIRED_MEMORY_SIZE {
      ExpandExact(m, need);
    } else if a.size == 0 {
      assert Align32(0) == 0;
    }
  }

  lemma ExpandExact(m: Memory, need: nat)
    requires WellSized(m.bytes) && need <= MAX_REQUIRED_MEMORY_SIZE
    ensures var grown := Grown(m.bytes, need);
            var cost := MemoryCost(|grown| / 32) - MemoryCost(|m.bytes| / 32);
            && WellSized(grown)
            && (ExpandAndCharge(m, need).Some? <==> cost <= m.gas)
            && (ExpandAndCharge(m, need).Some? ==> ExpandAndCharge(m, need).value == Memory(grown, m.gas - cost))
  {
    var size := Align32(need);
    AlignWithinLimit(need);
    if size > |m.bytes| {
      ExpansionCostExact(|m.bytes|, size);
    }
  }

  lemma AlignWithinLimit(need: nat)
    requires need <= MAX_REQUIRED_MEMORY_SIZE
    ensures Align32(need) <= MAX_REQUIRED_MEMORY_SIZE
  {
  }

  /** A sequence of accesses, each charged on its own; `None` as soon as one fails. */
  function RunAccesses(m: Memory, accesses: seq<Access>): (r: Option<Memory>)
    requires WellSized(m.bytes)
    decreases |accesses|
  {
    if accesses == [] then Some(m)
    else
      CheckExpandExact(m, accesses[0]);
      match CheckExpand(m, accesses[0].offset, accesses[0].size)
      case None => None
      case Some(m') => RunAccesses(m', accesses[1..])
  }

  /** The largest need in a sequence of accesses. */
  function MaxNeed(accesses: seq<Access>): (n: nat)
    ensures forall i :: 0 <= i < |accesses| ==> Needs(accesses[i]) <= n
  {
    if accesses == [] then 0
    else
      assert forall i :: 1 <= i < |accesses| ==> accesses[i] == accesses[1..][i - 1];
      Max(Needs(accesses[0]), MaxNeed(accesses[1..]))
  }

  lemma GrownTwice(bytes: seq<byte>, a: nat, b: nat)
    ensures Grown(Grown(bytes, a), b) == Grown(bytes, Max(a, b))
  {
    assert a <= b ==> Align32(a) <= Align32(b);
    assert b <= a ==> Align32(b) <= Align32(a);
  }

  /**
   Path independence. A run of accesses succeeds exactly when the largest one does on its
   own, and then leaves the same memory and the same gas: order, overlap and repetition do
   not matter, and from empty memory the total charge is the cost of the final size.
   */
  lemma {:induction false} MemoryGasPathIndependent(m: Memory, accesses: seq<Access>)
    requires WellSized(m.bytes)
    ensures var grown := Grown(m.bytes, MaxNeed(accesses));
            var cost := MemoryCost(|grown| / 32) - MemoryCost(|m.bytes| / 32);
            && (RunAccesses(m, accesses).Some? <==>
                  MaxNeed(accesses) <= MAX_REQUIRED_MEMORY_SIZE && cost <= m.gas)
            && (RunAccesses(m, accesses).Some? ==>
                  RunAccesses(m, accesses).value == Memory(grown, m.gas - cost) && WellSized(grown))
    decreases |accesses|
  {
    if accesses == [] {
      assert Align32(0) == 0;
    } else {
      var a, rest := accesses[0], accesses[1..];
      CheckExpandExact(m, a);
      GrownTwice(m.bytes, Needs(a), MaxNeed(rest));
      var once := Grown(m.bytes, Needs(a));
      MemoryCostMonotone(|once| / 32, |Grown(once, MaxNeed(rest))| / 32);
      match CheckExpand(m, a.offset, a.size)
      case None =>
      case Some(m') =>
        MemoryGasPathIndependent(m', rest);
    }
  }

  /** Two runs that touch the same highest byte cannot be told apart afterwards. */
  lemma MemoryGasOrderIrrelevant(m: Memory, a: seq<Access>, b: seq<Access>)
    requires WellSized(m.bytes) && MaxNeed(a) == MaxNeed(b)
    ensures RunAccesses(m, a) == RunAccesses(m, b)
  {
    hide RunAccesses, MaxNeed, Grown, MemoryCost;
    MemoryGasPathIndependent(m, a);
    MemoryGasPathIndependent(m, b);
  }

  /** From empty memory: whole words, within the limit, and every granted range in bounds. */
  lemma MemoryGasFromEmpty(gas: nat, accesses: seq<Access>)
    ensures var r := RunAccesses(Memory([], gas), accesses);
            r.Some? ==>
              && gas - r.value.gas == MemoryCost(|r.value.bytes| / 32)
              && |r.value.bytes| % 32 == 0 && |r.value.bytes| <= MAX_REQUIRED_MEMORY_SIZE
              && forall i :: 0 <= i < |accesses| && accesses[i].size != 0 ==>
                   accesses[i].offset + accesses[i].size <= |r.value.bytes|
  {
    MemoryGasPathIndependent(Memory([], gas), accesses);
  }
}
