/**
 The jump-destination map and the PUSH value map of the bytecode cache.

 The source decodes a PUSH immediate limb by limb into four 64-bit words and shifts the
 result left when the code ends inside the immediate. The specification `PushImmediate`
 reads the same bytes one at a time, most significant first, with zeros past the end.
 */
module PushDecoding {
  import opened Basics
  import opened Bytecode

  const TWO64: int := 0x1_0000_0000_0000_0000
  const TWO256: int := 0x1_0000_0000_0000_0000_0000_0000_0000_0000_0000_0000_0000_0000_0000_0000_0000_0000

  type word = w: int | 0 <= w < TWO256

  function Pow256(n: nat): (r: nat)
    ensures r >= 1
  {
    if n == 0 then 1 else 256 * Pow256(n - 1)
  }

  /** The number written by `s` in base 256, most significant byte first. */
  function BigEndian(s: seq<byte>): (r: nat) {
    if s == [] then 0 else BigEndian(s[..|s| - 1]) * 256 + s[|s| - 1]
  }

  function ByteOrZero(code: seq<byte>, i: nat): byte {
    if i < |code| then code[i] else 0
  }

  /** The `n` immediate bytes after `pc`, zero-padded past the end of the code. */
  function ImmediateBytes(code: seq<byte>, pc: nat, n: nat): (s: seq<byte>)
    ensures |s| == n && forall i :: 0 <= i < n ==> s[i] == ByteOrZero(code, pc + 1 + i)
  {
    seq<byte>(n, i requires 0 <= i < n => ByteOrZero(code, pc + 1 + i))
  }

  /** The value PUSH pushes, as the EVM defines it. */
  function PushImmediate(code: seq<byte>, pc: nat): (v: nat)
    requires pc < |code|
  {
    if IsPush(code[pc]) then BigEndian(ImmediateBytes(code, pc, OpcodeLen(code[pc]) - 1)) else 0
  }

  lemma {:induction false} BigEndianAppend(a: seq<byte>, b: seq<byte>)
    ensures BigEndian(a + b) == BigEndian(a) * Pow256(|b|) + BigEndian(b)
    decreases |b|
  {
    if b == [] {
      assert a + b == a;
    } else {
      var b' := b[..|b| - 1];
      assert (a + b)[..|a + b| - 1] == a + b';
      BigEndianAppend(a, b');
      assert BigEndian(a) * Pow256(|b'|) * 256 == BigEndian(a) * Pow256(|b|);
    }
  }

  lemma {:induction false} BigEndianBound(s: seq<byte>)
    ensures BigEndian(s) < Pow256(|s|)
  {
    if s != [] {
      BigEndianBound(s[..|s| - 1]);
    }
  }

  lemma {:induction false} BigEndianZeros(s: seq<byte>)
    requires forall i :: 0 <= i < |s| ==> s[i] == 0
    ensures BigEndian(s) == 0
  {
    if s != [] {
      BigEndianZeros(s[..|s| - 1]);
    }
  }

  lemma Pow256Eight()
    ensures Pow256(8) == TWO64
  {
    assert Pow256(2) == 0x1_0000;
    assert Pow256(4) == 0x1_0000 * Pow256(2);
    assert Pow256(6) == 0x1_0000 * Pow256(4);
    assert Pow256(8) == 0x1_0000 * Pow256(6);
  }

  lemma Pow256ThirtyTwo()
    ensures Pow256(32) == TWO256
  {
    Pow256Eight();
    Pow256Add(8, 8);
    Pow256Add(16, 16);
  }

  lemma {:induction false} Pow256Add(m: nat, n: nat)
    ensures Pow256(m + n) == Pow256(m) * Pow256(n)
  {
    if m != 0 {
      Pow256Add(m - 1, n);
    }
  }

  lemma {:induction false} Pow256Monotone(m: nat, n: nat)
    requires m <= n
    ensures Pow256(m) <= Pow256(n)
    decreases n - m
  {
    if m < n {
      Pow256Monotone(m + 1, n);
    }
  }

  /** The four little-endian 64-bit limbs of a 256-bit value. */
  datatype Limbs = Limbs(l0: nat, l1: nat, l2: nat, l3: nat) {
    function Value(): (v: nat) {
      l0 + TWO64 * (l1 + TWO64 * (l2 + TWO64 * l3))
    }
  }

  /** Limb-wise big-endian load of at most 32 bytes. */
  function LoadBeUint256(s: seq<byte>): (v: Limbs)
    requires |s| <= 32
  {
    var n := |s|;
    if n <= 8 then Limbs(BigEndian(s), 0, 0, 0)
    else if n <= 16 then Limbs(BigEndian(s[n - 8..]), BigEndian(s[..n - 8]), 0, 0)
    else if n <= 24 then
      Limbs(BigEndian(s[n - 8..]), BigEndian(s[n - 16..n - 8]), BigEndian(s[..n - 16]), 0)
    else
      Limbs(BigEndian(s[n - 8..]), BigEndian(s[n - 16..n - 8]), BigEndian(s[n - 24..n - 16]), BigEndian(s[..n - 24]))
  }

  lemma JoinLimbs(high: seq<byte>, low: seq<byte>)
    requires |low| == 8
    ensures BigEndian(high + low) == BigEndian(low) + TWO64 * BigEndian(high) && BigEndian(low) < TWO64
  {
    BigEndianAppend(high, low);
    BigEndianBound(low);
    Pow256Eight();
    ScaleBy(BigEndian(high), Pow256(8));
  }

  lemma ScaleBy(a: nat, p: nat)
    requires p == TWO64
    ensures a * p == TWO64 * a
  {
  }

  lemma SplitLow64(s: seq<byte>)
    requires 8 <= |s|
    ensures BigEndian(s) == BigEndian(s[|s| - 8..]) + TWO64 * BigEndian(s[..|s| - 8])
    ensures BigEndian(s[|s| - 8..]) < TWO64
  {
    assert s == s[..|s| - 8] + s[|s| - 8..];
    JoinLimbs(s[..|s| - 8], s[|s| - 8..]);
  }

  lemma FitsLimb(s: seq<byte>)
    requires |s| <= 8
    ensures BigEndian(s) < TWO64
  {
    Pow256Eight();
    BigEndianBound(s);
    Pow256Monotone(|s|, 8);
  }

  /** The limb-wise load is the base-256 number, and every limb fits 64 bits. */
  lemma LoadBeUint256IsBigEndian(s: seq<byte>)
    requires |s| <= 32
    ensures LoadBeUint256(s).Value() == BigEndian(s)
    ensures var l := LoadBeUint256(s); l.l0 < TWO64 && l.l1 < TWO64 && l.l2 < TWO64 && l.l3 < TWO64
  {
    var n := |s|;
    if n <= 8 {
      FitsLimb(s);
    } else {
      var s1 := s[..n - 8];
      assert BigEndian(s) == BigEndian(s[n - 8..]) + TWO64 * BigEndian(s1) && BigEndian(s[n - 8..]) < TWO64 by {
        SplitLow64(s);
      }
      if n <= 16 {
        FitsLimb(s1);
      } else {
        UpperLimbs(s, s1);
      }
    }
  }

  /** The limbs above the lowest one are those of the string without its last eight bytes. */
  lemma UpperLimbs(s: seq<byte>, s1: seq<byte>)
    requires 16 < |s| <= 32 && s1 == s[..|s| - 8]
    ensures var l := LoadBeUint256(s);
            BigEndian(s1) == l.l1 + TWO64 * (l.l2 + TWO64 * l.l3) && l.l1 < TWO64 && l.l2 < TWO64 && l.l3 < TWO64
  {
    hide BigEndian;
    var n := |s|;
    SplitLow64(s1);
    assert s1[n - 16..] == s[n - 16..n - 8];
    var s2 := s[..n - 16];
    assert s1[..n - 16] == s2;
    if n <= 24 {
      FitsLimb(s2);
    } else {
      SplitLow64(s2);
      assert s2[n - 24..] == s[n - 24..n - 16];
      assert s2[..n - 24] == s[..n - 24];
      FitsLimb(s[..n - 24]);
    }
  }

  /** The source's decoder: load what is there, then shift the missing bytes in as zeros. */
  function LoadPushValue(code: seq<byte>, pc: nat, numBytes: nat): (v: nat)
    requires numBytes <= 32
  {
    var offset := pc + 1;
    if offset >= |code| then 0
    else
      var copied := if numBytes < |code| - offset then numBytes else |code| - offset;
      if copied == 0 then 0
      else
        var value := LoadBeUint256(code[offset..offset + copied]).Value();
        (value * Pow256(numBytes - copied)) % TWO256
  }

  /** Bytes past the end of the code only scale the part that is there. */
  lemma ImmediateSplit(code: seq<byte>, pc: nat, n: nat, copied: nat)
    requires copied <= n && pc + 1 + copied <= |code| && (copied == n || pc + 1 + copied == |code|)
    ensures BigEndian(ImmediateBytes(code, pc, n)) == BigEndian(code[pc + 1..pc + 1 + copied]) * Pow256(n - copied)
  {
    var bytes := ImmediateBytes(code, pc, n);
    var there := code[pc + 1..pc + 1 + copied];
    assert bytes == there + bytes[copied..];
    BigEndianAppend(there, bytes[copied..]);
    BigEndianZeros(bytes[copied..]);
  }

  lemma PushFitsWord(s: seq<byte>)
    requires |s| <= 32
    ensures BigEndian(s) < TWO256
  {
    Pow256ThirtyTwo();
    BigEndianBound(s);
    Pow256Monotone(|s|, 32);
  }

  lemma SmallMod(x: nat, m: nat)
    requires x < m
    ensures x % m == x
  {
  }

  /** Decoding is big-endian with zero padding, for every code and every truncation. */
  lemma LoadPushValueCorrect(code: seq<byte>, pc: nat, n: nat)
    requires n <= 32
    ensures LoadPushValue(code, pc, n) == BigEndian(ImmediateBytes(code, pc, n)) < TWO256
  {
    var bytes := ImmediateBytes(code, pc, n);
    PushFitsWord(bytes);
    var offset := pc + 1;
    if offset >= |code| {
      BigEndianZeros(bytes);
    } else {
      var copied := if n < |code| - offset then n else |code| - offset;
      ImmediateSplit(code, pc, n, copied);
      LoadBeUint256IsBigEndian(code[offset..offset + copied]);
      SmallMod(BigEndian(bytes), TWO256);
    }
  }

  /**
   One pass over the code fills both maps: a position is a jump destination exactly when it
   holds a JUMPDEST outside PUSH data, and each PUSH position holds its decoded immediate.
   */
  method BuildJumpDestMapAndPushCache(code: seq<byte>) returns (jumpDest: seq<bool>, pushValue: seq<word>)
    ensures |jumpDest| == |pushValue| == |code|
    ensures forall p :: 0 <= p < |code| ==> jumpDest[p] == ValidJumpDest(code, p)
    ensures forall p :: 0 <= p < |code| ==>
              pushValue[p] == if Follows(code, 0, p) then PushImmediate(code, p) else 0
  {
    jumpDest := seq(|code|, _ => false);
    pushValue := seq(|code|, _ => 0);
    var pc := 0;
    while pc < |code|
      invariant |jumpDest| == |pushValue| == |code|
      invariant Follows(code, 0, pc)
      invariant forall p :: 0 <= p < |code| && p < pc ==> jumpDest[p] == ValidJumpDest(code, p)
      invariant forall p :: 0 <= p < |code| && p < pc ==>
                  pushValue[p] == if Follows(code, 0, p) then PushImmediate(code, p) else 0
      invariant forall p :: pc <= p < |code| ==> !jumpDest[p] && pushValue[p] == 0
    {
      FollowsNext(code, 0, pc);
      forall q | pc < q < Next(code, pc)
        ensures !Follows(code, 0, q)
      {
        NoBoundaryInside(code, pc, q);
      }
      if code[pc] == OP_JUMPDEST {
        jumpDest := jumpDest[pc := true];
      } else if IsPush(code[pc]) {
        var numBytes := code[pc] - OP_PUSH1 + 1;
        LoadPushValueCorrect(code, pc, numBytes);
        pushValue := pushValue[pc := LoadPushValue(code, pc, numBytes)];
        pc := pc + numBytes;
      }
      pc := pc + 1;
    }
  }
}
