/**
 EVM bytecode as the cache builder and the interpreter see it: opcode classes, instruction
 lengths and the instruction boundaries of a code string.

 A program counter is a byte offset. `Follows(code, p, q)` says that decoding whole
 instructions from `p` arrives exactly at `q`; an offset inside PUSH data never follows 0.
 */
module Bytecode {
  import opened Basics

  const OP_STOP := 0x00
  const OP_ADD := 0x01
  const OP_SUB := 0x03
  const OP_CALLDATALOAD := 0x35
  const OP_POP := 0x50
  const OP_MLOAD := 0x51
  const OP_MSTORE := 0x52
  const OP_MSTORE8 := 0x53
  const OP_SSTORE := 0x55
  const OP_JUMP := 0x56
  const OP_JUMPI := 0x57
  const OP_PC := 0x58
  const OP_MSIZE := 0x59
  const OP_GAS := 0x5a
  const OP_JUMPDEST := 0x5b
  const OP_PUSH0 := 0x5f
  const OP_PUSH1 := 0x60
  const OP_PUSH32 := 0x7f
  const OP_DUP1 := 0x80
  const OP_DUP16 := 0x8f
  const OP_SWAP1 := 0x90
  const OP_SWAP16 := 0x9f
  const OP_CREATE := 0xf0
  const OP_CALL := 0xf1
  const OP_CALLCODE := 0xf2
  const OP_RETURN := 0xf3
  const OP_DELEGATECALL := 0xf4
  const OP_CREATE2 := 0xf5
  const OP_STATICCALL := 0xfa
  const OP_REVERT := 0xfd
  const OP_INVALID := 0xfe
  const OP_SELFDESTRUCT := 0xff

  predicate IsPush(op: int) {
    OP_PUSH1 <= op <= OP_PUSH32
  }

  /** Byte length of an instruction, PUSH immediate included. */
  function OpcodeLen(op: int): (n: nat)
    ensures 1 <= n <= 33
  {
    if IsPush(op) then op - OP_PUSH1 + 2 else 1
  }

  predicate IsJump(op: int) {
    op == OP_JUMP || op == OP_JUMPI
  }

  /** Opcodes after which straight-line execution ends. */
  predicate IsControlFlowTerminator(op: int) {
    op in {OP_STOP, OP_RETURN, OP_REVERT, OP_SELFDESTRUCT, OP_INVALID, OP_JUMP}
  }

  /** Opcodes whose effect depends on the gas left. */
  predicate IsGasSensitiveTerminator(op: int) {
    op in {OP_GAS, OP_CREATE, OP_CREATE2, OP_CALL, OP_CALLCODE, OP_DELEGATECALL, OP_STATICCALL}
  }

  /** Opcodes that end a gas chunk. */
  predicate IsGasChunkTerminator(op: int) {
    IsControlFlowTerminator(op) || IsGasSensitiveTerminator(op) || op == OP_JUMPI || op == OP_SSTORE
  }

  /** Start of the instruction after the one at `p`. */
  function Next(code: seq<byte>, p: nat): (n: nat)
    requires p < |code|
    ensures p < n <= p + 33
  {
    p + OpcodeLen(code[p])
  }

  /** Decoding whole instructions from `p` reaches `q`. */
  predicate Follows(code: seq<byte>, p: nat, q: nat)
    decreases if p < q then q - p else 0
  {
    p == q || (p < q && p < |code| && Follows(code, Next(code, p), q))
  }

  /** Some instruction decoded from `s` is a gas-chunk terminator and ends exactly at `p`. */
  predicate AfterTerminator(code: seq<byte>, s: nat, p: nat)
    decreases if s < p then p - s else 0
  {
    s < p && s < |code| &&
    if Next(code, s) == p then IsGasChunkTerminator(code[s]) else AfterTerminator(code, Next(code, s), p)
  }

  /** A jump to `d` is legal: `d` holds a JUMPDEST that is not PUSH data. */
  predicate ValidJumpDest(code: seq<byte>, d: nat) {
    d < |code| && code[d] == OP_JUMPDEST && Follows(code, 0, d)
  }

  lemma {:induction false} FollowsTransitive(code: seq<byte>, p: nat, q: nat, r: nat)
    requires Follows(code, p, q) && Follows(code, q, r)
    ensures Follows(code, p, r)
    decreases if p < q then q - p else 0
  {
    if p < q {
      FollowsOrdered(code, q, r);
      FollowsTransitive(code, Next(code, p), q, r);
    }
  }

  lemma {:induction false} FollowsOrdered(code: seq<byte>, p: nat, q: nat)
    requires Follows(code, p, q)
    ensures p <= q
  {
  }

  lemma FollowsNext(code: seq<byte>, p: nat, q: nat)
    requires Follows(code, p, q) && q < |code|
    ensures Follows(code, p, Next(code, q))
  {
    assert Follows(code, q, Next(code, q));
    FollowsTransitive(code, p, q, Next(code, q));
  }

  /** Instruction boundaries decoded from one origin are linearly ordered. */
  lemma {:induction false} FollowsLinear(code: seq<byte>, p: nat, a: nat, b: nat)
    requires Follows(code, p, a) && Follows(code, p, b) && a <= b
    ensures Follows(code, a, b)
    decreases if p < a then a - p else 0
  {
    if p < a {
      FollowsLinear(code, Next(code, p), a, b);
    }
  }

  /** No instruction starts strictly inside another one. */
  lemma NoBoundaryInside(code: seq<byte>, p: nat, q: nat)
    requires Follows(code, 0, p) && p < |code| && p < q < Next(code, p)
    ensures !Follows(code, 0, q)
  {
    if Follows(code, 0, q) {
      FollowsLinear(code, 0, p, q);
      FollowsOrdered(code, Next(code, p), q);
    }
  }

  /** What precedes a boundary decides whether a terminator ends there. */
  lemma {:induction false} AfterTerminatorAt(code: seq<byte>, s: nat, p: nat)
    requires Follows(code, s, p) && p < |code|
    ensures AfterTerminator(code, s, Next(code, p)) == IsGasChunkTerminator(code[p])
    decreases if s < p then p - s else 0
  {
    if s < p {
      FollowsOrdered(code, Next(code, s), p);
      AfterTerminatorAt(code, Next(code, s), p);
    }
  }

  lemma {:induction false} AfterTerminatorFollows(code: seq<byte>, s: nat, p: nat)
    requires AfterTerminator(code, s, p)
    ensures Follows(code, s, p)
    decreases if s < p then p - s else 0
  {
    if Next(code, s) != p {
      AfterTerminatorFollows(code, Next(code, s), p);
    }
  }
}
