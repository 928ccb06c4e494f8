/** The comments of a disassembly against whole runs: a jump that is taken goes where the listing says. */
module JumpNames {
  import opened Words
  import opened Bytecode
  import opened Alu
  import opened Evm
  import opened EvmShape
  import opened EvmInvariant
  import opened Samples
  import opened Disassembler

  // ----- What is on the stack behind a PUSH -----

  /** Behind a PUSH, its immediate is on top, unless a jump may have led here. */
  ghost predicate TopIsImmediate(c: Ctx) {
    c.pc < |c.code| && c.code[c.pc] != JUMPDEST ==>
      forall q: nat :: Precedes(c.code, q, c.pc) && IsPush(c.code[q]) ==>
        c.s != [] && c.s[0] == FromBE(c.code[q + 1..c.pc])
  }

  ghost predicate RunningTop(m: Machine)
    requires m.ctxts != []
  {
    TopIsImmediate(m.ctxts[|m.ctxts| - 1])
  }

  /** Only the instruction that has just gone on can precede the counter. */
  lemma AfterNext(env: Env, depth: nat, c: Ctx, w: World)
    requires PcOk(c) && c.pc < |c.code| && (c.pcChanged ==> c.pc == 0)
    ensures var o := Exec(env, depth, c, w); o.Next? ==> TopIsImmediate(StepPc(o.c))
  {
    var o := Exec(env, depth, c, w);
    if o.Next? {
      NextShape(env, depth, c, w);
      AfterOpcode(env, depth, c, o.c, w);
    }
  }

  lemma AfterOpcode(env: Env, depth: nat, c: Ctx, d: Ctx, w: World)
    requires IsInstruction(c.code, c.pc) && c.pc < |c.code| && (c.pcChanged ==> c.pc == 0)
    requires PcAfter(c, d) && d.code == c.code && Exec(env, depth, c, w).Next? && Exec(env, depth, c, w).c == d
    ensures TopIsImmediate(StepPc(d))
  {
    hide Exec, FromBE, ValidDestinations;
    var p := StepPc(d).pc;
    if IsPush(c.code[c.pc]) { PushedImmediate(env, depth, c, w); }
    DestinationsAreJumpdests(c.code, 0, d.pc);
    if p < |c.code| && c.code[p] != JUMPDEST && p == NextInstruction(c.code, c.pc) {
      forall q: nat | Precedes(c.code, q, p)
        ensures q == c.pc
      {
        OnePredecessor(c.code, q, c.pc, p);
      }
    }
  }

  lemma PushedImmediate(env: Env, depth: nat, c: Ctx, w: World)
    requires c.pc < |c.code| && IsPush(c.code[c.pc])
    ensures var o := Exec(env, depth, c, w); var next := NextInstruction(c.code, c.pc);
            o.Next? ==> next <= |c.code| && o.c.s != [] && o.c.s[0] == FromBE(c.code[c.pc + 1..next])
                        && o.c.pc == next && o.c.pcChanged
  {
    hide FromBE;
    PushAgrees(c, w);
  }

  /** Nothing precedes the first instruction. */
  lemma AtStart(c: Ctx)
    requires c.pc == 0
    ensures TopIsImmediate(c)
  {
  }

  /** Behind a call comes no immediate. */
  lemma AfterCall(p: Ctx, child: Ctx, v: Word, mem: seq<Byte>)
    requires Good(p) && WaitsFor(p, child)
    ensures TopIsImmediate(Resumed(p, v, mem))
  {
    hide FromBE;
    var next := p.pc + 1;
    forall q: nat | Precedes(p.code, q, next)
      ensures q == p.pc
    {
      OnePredecessor(p.code, q, p.pc, next);
    }
  }

  // ----- Every reachable state -----

  lemma StepKeepsTop(env: Env, m: Machine)
    requires Inv(m) && Step(env, m).Running?
    ensures Inv(Step(env, m).m) && RunningTop(Step(env, m).m)
  {
    hide Step, Exec, Nested, TopIsImmediate, Handed, EndedBy, WorldAfter, Resumed, Good, WaitsFor, StepPc;
    StepKeepsInv(env, m);
    var t := StepTurn(env, m);
    var n := |m.ctxts| - 1;
    var c := m.ctxts[n];
    assert Good(c);
    match t
    case Onward(d) =>
      InstructionAt(m);
      AfterNext(env, n + 1, c, m.w);
    case Enter(p, child) =>
      EnteredShape(env, n + 1, c, m.w);
      FirstOf(child);
    case Back(j, e, v, mem) =>
      AfterCall(m.ctxts[j], m.ctxts[j + 1], v, mem);
  }

  lemma InstructionAt(m: Machine)
    requires Inv(m)
    ensures var c := m.ctxts[|m.ctxts| - 1]; PcOk(c) && (c.pcChanged ==> c.pc == 0)
  {
    assert Good(m.ctxts[|m.ctxts| - 1]);
  }

  lemma FirstOf(child: Ctx)
    requires Fresh(child)
    ensures TopIsImmediate(StepPc(child))
  {
    AtStart(StepPc(child));
  }

  lemma {:induction false} RunKeepsTop(env: Env, m: Machine, n: nat)
    requires Inv(m) && RunningTop(m)
    ensures m.ctxts != [] && Nested(m.ctxts)
    ensures var st := Run(env, m, n); st.Running? ==> Inv(st.m) && RunningTop(st.m)
    decreases n
  {
    hide Step, Inv, RunningTop;
    InvParts(m);
    if n > 0 && Step(env, m).Running? {
      StepKeepsTop(env, m);
      RunKeepsTop(env, Step(env, m).m, n - 1);
    }
  }

  // ----- Jumps -----

  /** The condition of JUMPI; JUMP has none. */
  predicate Taken(op: Byte, s: seq<Word>) {
    op == JUMP || (|s| >= 2 && s[1] != 0)
  }

  /** With the immediate on top, a jump succeeds exactly when the listing resolves it and the immediate
      fits 64 bits, and then goes to the place that the listing names. */
  lemma JumpGoes(env: Env, depth: nat, c: Ctx, w: World, q: nat, cm: Comment)
    requires c.pc < |c.code| && IsJump(c.code[c.pc]) && Precedes(c.code, q, c.pc) && IsPush(c.code[q])
    requires TopIsImmediate(c) && Commented(c.code, c.pc, cm) && Taken(c.code[c.pc], c.s)
    ensures var o, v := Exec(env, depth, c, w), FromBE(c.code[q + 1..c.pc]);
            && (o.Next? <==> cm.BranchesTo? && v < TWO64)
            && (o.Next? ==> cm == BranchesTo(o.c.pc) && o.c.pcChanged)
  {
    hide FromBE, ValidDestinations;
    assert c.s[0] == FromBE(c.code[q + 1..c.pc]);
    assert cm == TargetComment(c.code, FromBE(c.code[q + 1..c.pc]));
  }

  /** In every run, from any start: when the running context is about to take a jump that the listing
      resolves, the jump goes to the named place, or its immediate has more than 64 bits and it throws;
      a jump that the listing calls illegal throws. */
  lemma JumpsGoWhereNamed(env: Env, caller: Word, callee: Word, input: seq<Byte>, callValue: Word, w: World, n: nat,
                          q: nat, cm: Comment)
    ensures var st := Run(env, Start(caller, callee, input, callValue, w), n);
            st.Running? ==>
              var c := st.m.ctxts[|st.m.ctxts| - 1];
              c.pc < |c.code| && IsJump(c.code[c.pc]) && Precedes(c.code, q, c.pc) && IsPush(c.code[q])
              && Commented(c.code, c.pc, cm) && Taken(c.code[c.pc], c.s) ==>
                var o, v := Exec(env, |st.m.ctxts|, c, st.m.w), FromBE(c.code[q + 1..c.pc]);
                && c.s != [] && c.s[0] == v
                && (o.Next? <==> cm.BranchesTo? && v < TWO64)
                && (o.Next? ==> cm == BranchesTo(o.c.pc))
  {
    hide Run, Exec, Inv, FromBE, Commented;
    var m := Start(caller, callee, input, callValue, w);
    StartInv(caller, callee, input, callValue, w);
    AtStart(m.ctxts[0]);
    RunKeepsTop(env, m, n);
    var st := Run(env, m, n);
    if st.Running? {
      var c := st.m.ctxts[|st.m.ctxts| - 1];
      if c.pc < |c.code| && IsJump(c.code[c.pc]) && Precedes(c.code, q, c.pc) && IsPush(c.code[q])
         && Commented(c.code, c.pc, cm) && Taken(c.code[c.pc], c.s) {
        JumpGoes(env, |st.m.ctxts|, c, st.m.w, q, cm);
      }
    }
  }

  /** PUSH9, a number above 2^64 whose low bits are 11, JUMP, JUMPDEST. */
  function LongJumpCode(): (code: seq<Byte>)
    ensures |code| == 12 && code[0] == PUSH1 + 8 && code[10] == JUMP && code[11] == JUMPDEST
  {
    [PUSH1 + 8, 1, 0, 0, 0, 0, 0, 0, 0, 11, JUMP, JUMPDEST]
  }

  /** A jump that the listing resolves and that throws all the same, because its immediate is too long. */
  lemma NamedButThrows(env: Env, caller: Word, callee: Word, input: seq<Byte>, callValue: Word, w: World)
    requires Lookup(w, callee).code == LongJumpCode()
    ensures Commented(LongJumpCode(), 10, BranchesTo(11))
    ensures var st := Run(env, Start(caller, callee, input, callValue, w), 2);
            st.Finished? && st.m.result.er == ExitThrew && st.m.result.ex == OutOfBounds
  {
    hide Step, FromBE, Exec, Commented, LongJumpCode;
    var m := Start(caller, callee, input, callValue, w);
    var c, v := m.ctxts[0], TWO64 + 11;
    LongImmediate();
    ResolvedAt10();
    PushTurn(env, m, c, 9, v);
    assert [v] + [] == [v];
    var c1 := At(c, 10, [v], []);
    OneTurn(env, m);
    OneTurn(env, With(m, c1));
    RunThen(env, m, 1, With(m, c1), 1);
    LongJumpThrows(env, With(m, c1), c1);
  }

  lemma LongImmediate()
    ensures FromBE(LongJumpCode()[1..10]) == TWO64 + 11
  {
    var imm, low := LongJumpCode()[1..10], Zeros(7) + [11];
    assert imm == [1] + low;
    ByteValue([1], 0);
    ByteValue([11], 0);
    assert [1][0..1] == [1] && [11][0..1] == [11];
    hide FromBE, Exp;
    FromBEConcat([1], low);
    FromBEConcat(Zeros(7), [11]);
    FromBEZeros(7);
    Power256Bytes(32);
  }

  lemma ResolvedAt10()
    requires FromBE(LongJumpCode()[1..10]) == TWO64 + 11
    ensures Commented(LongJumpCode(), 10, BranchesTo(11))
  {
    hide FromBE;
    var code := LongJumpCode();
    assert NextInstruction(code, 0) == 10 && StartsAt(code, 10, 11);
    DestinationsAreJumpdests(code, 0, 11);
    forall q: nat | Precedes(code, q, 10)
      ensures q == 0
    {
      OnePredecessor(code, q, 0, 10);
    }
  }

  lemma LongJumpThrows(env: Env, m: Machine, c: Ctx)
    requires Solo(m, c) && c.pc < |c.code| && c.code[c.pc] == JUMP && c.s == [TWO64 + 11]
    ensures Nested(m.ctxts)
    ensures var st := Step(env, m); st.Finished? && st.m.result.er == ExitThrew && st.m.result.ex == OutOfBounds
  {
    assert [c][..0] == [];
  }
}
