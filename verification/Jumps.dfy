/** Jumps, told from the operands on the stack and the bytes of the code. */
module Jumps {
  import opened Words
  import opened Bytecode
  import opened Alu
  import opened Evm
  import opened WordOpcodes

  /** A JUMPDEST instruction starts at `p`. */
  predicate JumpdestAt(code: seq<Byte>, p: nat) {
    p < |code| && IsInstruction(code, p) && code[p] == JUMPDEST
  }

  /** JUMP goes to its operand if a JUMPDEST instruction starts there, and throws otherwise. */
  lemma JumpLaw(env: Env, depth: nat, c: Ctx, w: World)
    requires AtOpcode(c, JUMP) && |c.s| >= 1
    ensures Exec(env, depth, c, w)
            == if c.s[0] >= TWO64 then Threw(OutOfBounds, w)
               else if JumpdestAt(c.code, c.s[0]) then Next(c.(s := c.s[1..], pc := c.s[0], pcChanged := true), w)
               else Threw(IllegalInstruction, w)
  {
    hide ValidDestinations;
    DestinationsAreJumpdests(c.code, 0, c.s[0]);
  }

  /** JUMPI does the same for a condition that is not zero; for zero it only drops its operands, whatever
      the target, so that the loop goes on one past it. */
  lemma JumpIfLaw(env: Env, depth: nat, c: Ctx, w: World)
    requires AtOpcode(c, JUMPI) && |c.s| >= 2
    ensures Exec(env, depth, c, w)
            == if c.s[0] >= TWO64 then Threw(OutOfBounds, w)
               else if c.s[1] == 0 then Next(c.(s := c.s[2..]), w)
               else if JumpdestAt(c.code, c.s[0]) then Next(c.(s := c.s[2..], pc := c.s[0], pcChanged := true), w)
               else Threw(IllegalInstruction, w)
  {
    hide ValidDestinations;
    assert c.s[1..][1..] == c.s[2..];
    DestinationsAreJumpdests(c.code, 0, c.s[0]);
  }

  /** In a loop turn of a single context the two cases end at the target and one past the JUMPI. */
  lemma JumpIfSteps(env: Env, depth: nat, c: Ctx, w: World)
    requires AtOpcode(c, JUMPI) && |c.s| >= 2 && c.s[0] < TWO64 && !c.pcChanged
    ensures var o := Exec(env, depth, c, w);
            && (c.s[1] == 0 ==> o.Next? && StepPc(o.c).pc == c.pc + 1 && StepPc(o.c).s == c.s[2..])
            && (c.s[1] != 0 && o.Next? ==> StepPc(o.c).pc == c.s[0] && StepPc(o.c).s == c.s[2..])
            && (c.s[1] != 0 ==> (o.Next? <==> JumpdestAt(c.code, c.s[0])))
  {
    hide Exec, JumpdestAt;
    JumpIfLaw(env, depth, c, w);
  }

  /** The instruction at the counter is a jump that will be taken: told from the opcode, the operands and
      the code. */
  predicate WillJump(c: Ctx) {
    && (AtOpcode(c, JUMP) || AtOpcode(c, JUMPI))
    && |c.s| >= (if AtOpcode(c, JUMP) then 1 else 2)
    && (AtOpcode(c, JUMPI) ==> c.s[1] != 0)
    && c.s[0] < TWO64 && JumpdestAt(c.code, c.s[0])
  }

  /** Exactly these instructions move the counter as a jump does. */
  lemma WillJumpExactly(env: Env, depth: nat, c: Ctx, w: World)
    requires (AtOpcode(c, JUMP) || AtOpcode(c, JUMPI)) && (c.pcChanged ==> c.s == [])
    ensures WillJump(c) <==> Exec(env, depth, c, w).Next? && Exec(env, depth, c, w).c.pcChanged
  {
    hide JumpdestAt, ValidDestinations;
    if AtOpcode(c, JUMP) && |c.s| >= 1 { JumpLaw(env, depth, c, w); }
    if AtOpcode(c, JUMPI) && |c.s| >= 2 { JumpIfLaw(env, depth, c, w); }
  }
}
