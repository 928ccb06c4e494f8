/** EVM byte code: opcodes, instruction boundaries and jump destinations. */
module Bytecode {
  import opened Words

  const STOP: Byte := 0x00
  const ADD: Byte := 0x01
  const MUL: Byte := 0x02
  const SUB: Byte := 0x03
  const DIV: Byte := 0x04
  const SDIV: Byte := 0x05
  const MOD: Byte := 0x06
  const SMOD: Byte := 0x07
  const ADDMOD: Byte := 0x08
  const MULMOD: Byte := 0x09
  const EXP: Byte := 0x0a
  const SIGNEXTEND: Byte := 0x0b
  const LT: Byte := 0x10
  const GT: Byte := 0x11
  const SLT: Byte := 0x12
  const SGT: Byte := 0x13
  const EQ: Byte := 0x14
  const ISZERO: Byte := 0x15
  const AND: Byte := 0x16
  const OR: Byte := 0x17
  const XOR: Byte := 0x18
  const NOT: Byte := 0x19
  const BYTE: Byte := 0x1a
  const SHA3: Byte := 0x20
  const ADDRESS: Byte := 0x30
  const BALANCE: Byte := 0x31
  const ORIGIN: Byte := 0x32
  const CALLER: Byte := 0x33
  const CALLVALUE: Byte := 0x34
  const CALLDATALOAD: Byte := 0x35
  const CALLDATASIZE: Byte := 0x36
  const CALLDATACOPY: Byte := 0x37
  const CODESIZE: Byte := 0x38
  const CODECOPY: Byte := 0x39
  const GASPRICE: Byte := 0x3a
  const EXTCODESIZE: Byte := 0x3b
  const EXTCODECOPY: Byte := 0x3c
  const BLOCKHASH: Byte := 0x40
  const COINBASE: Byte := 0x41
  const TIMESTAMP: Byte := 0x42
  const NUMBER: Byte := 0x43
  const DIFFICULTY: Byte := 0x44
  const GASLIMIT: Byte := 0x45
  const POP: Byte := 0x50
  const MLOAD: Byte := 0x51
  const MSTORE: Byte := 0x52
  const MSTORE8: Byte := 0x53
  const SLOAD: Byte := 0x54
  const SSTORE: Byte := 0x55
  const JUMP: Byte := 0x56
  const JUMPI: Byte := 0x57
  const PC: Byte := 0x58
  const MSIZE: Byte := 0x59
  const GAS: Byte := 0x5a
  const JUMPDEST: Byte := 0x5b
  const PUSH1: Byte := 0x60
  const PUSH32: Byte := 0x7f
  const DUP1: Byte := 0x80
  const DUP16: Byte := 0x8f
  const SWAP1: Byte := 0x90
  const SWAP16: Byte := 0x9f
  const LOG0: Byte := 0xa0
  const LOG4: Byte := 0xa4
  const CREATE: Byte := 0xf0
  const CALL: Byte := 0xf1
  const CALLCODE: Byte := 0xf2
  const RETURN: Byte := 0xf3
  const DELEGATECALL: Byte := 0xf4
  const SELFDESTRUCT: Byte := 0xff

  predicate IsPush(op: Byte) {
    PUSH1 <= op <= PUSH32
  }

  /** The number of immediate bytes that follow an opcode. */
  function ImmediateBytes(op: Byte): nat {
    if IsPush(op) then op - PUSH1 + 1 else 0
  }

  /** N(i, w) of section 9.4.3 of the Ethereum Yellow Paper: the next instruction. */
  function NextInstruction(code: seq<Byte>, i: nat): nat
    requires i < |code|
  {
    i + 1 + ImmediateBytes(code[i])
  }

  /** D_J(c, i) of section 9.4.3 of the Ethereum Yellow Paper: the jump destinations from `i` on. */
  function ValidDestinations(code: seq<Byte>, i: nat): set<nat>
    decreases |code| - i
  {
    if i >= |code| then {}
    else if code[i] == JUMPDEST then {i} + ValidDestinations(code, NextInstruction(code, i))
    else ValidDestinations(code, NextInstruction(code, i))
  }

  /** `p` is where some instruction starts, counting instructions from `i`. */
  predicate StartsAt(code: seq<Byte>, i: nat, p: nat)
    decreases |code| - i
  {
    i < |code| && (p == i || StartsAt(code, NextInstruction(code, i), p))
  }

  predicate IsInstruction(code: seq<Byte>, p: nat) {
    StartsAt(code, 0, p)
  }

  lemma {:induction false} StartsInside(code: seq<Byte>, i: nat, p: nat)
    requires StartsAt(code, i, p)
    ensures i <= p < |code|
    decreases |code| - i
  {
    if p != i { StartsInside(code, NextInstruction(code, i), p); }
  }

  /** The instruction after a start is a start, unless the code ends or is cut inside the immediate. */
  lemma {:induction false} NextStarts(code: seq<Byte>, i: nat, p: nat)
    requires StartsAt(code, i, p)
    ensures p < |code|
    ensures NextInstruction(code, p) < |code| ==> StartsAt(code, i, NextInstruction(code, p))
    decreases |code| - i
  {
    StartsInside(code, i, p);
    if p != i { NextStarts(code, NextInstruction(code, i), p); }
  }

  /** No instruction starts between an instruction and the next: immediates are never executed. */
  lemma {:induction false} NoStartInImmediate(code: seq<Byte>, i: nat, p: nat, q: nat)
    requires StartsAt(code, i, p) && StartsAt(code, i, q)
    ensures p < |code|
    ensures !(p < q < NextInstruction(code, p))
    decreases |code| - i
  {
    StartsInside(code, i, p);
    StartsInside(code, i, q);
    if p == i {
      if q != i { StartsInside(code, NextInstruction(code, i), q); }
    } else if q != i {
      NoStartInImmediate(code, NextInstruction(code, i), p, q);
    }
  }

  /** A position is a valid destination exactly when a JUMPDEST instruction starts there. */
  lemma {:induction false} DestinationsAreJumpdests(code: seq<Byte>, i: nat, p: nat)
    ensures p in ValidDestinations(code, i) <==> StartsAt(code, i, p) && p < |code| && code[p] == JUMPDEST
    decreases |code| - i
  {
    if i < |code| {
      DestinationsAreJumpdests(code, NextInstruction(code, i), p);
      if StartsAt(code, NextInstruction(code, i), p) { StartsInside(code, NextInstruction(code, i), p); }
    }
  }

  /** The set the interpreter computes once per program. */
  method ComputeJumpDests(code: seq<Byte>) returns (dests: set<nat>)
    ensures dests == ValidDestinations(code, 0)
  {
    dests := {};
    var i := 0;
    while i < |code|
      invariant 0 <= i
      invariant dests + ValidDestinations(code, i) == ValidDestinations(code, 0)
      decreases |code| - i
    {
      var op := code[i];
      ghost var at := i;
      if op >= PUSH1 && op <= PUSH32 {
        var immediateBytes := op - PUSH1 + 1;
        i := i + immediateBytes;
      } else if op == JUMPDEST {
        dests := dests + {i};
      }
      i := i + 1;
      assert i == NextInstruction(code, at);
    }
  }
}
