/** Where a context comes from: every context of a reachable state was entered by one turn of the run, whose
    operands fixed its code, account, caller, value and input. */
module Origins {
  import opened Words
  import opened Bytecode
  import opened Alu
  import opened Evm
  import opened EvmShape
  import opened EvmInvariant
  import opened CallEntry
  import opened CallResume

  /** The last turn of a run. */
  lemma {:induction false} RunLast(env: Env, m: Machine, n: nat)
    requires m.ctxts != [] && Nested(m.ctxts) && n > 0 && Run(env, m, n).Running?
    ensures Run(env, m, n - 1).Running? && Step(env, Run(env, m, n - 1).m) == Run(env, m, n)
    decreases n
  {
    hide Step, Nested;
    if n > 1 { RunLast(env, Step(env, m).m, n - 1); }
  }

  /** From `m` the turn enters `child`, which is what the operands at the counter make it. */
  ghost predicate Enters(env: Env, m: Machine, j: nat, child: Ctx) {
    && Inv(m) && m.ctxts != [] && Nested(m.ctxts) && |m.ctxts| == j
    && Step(env, m).Running? && |Step(env, m).m.ctxts| == j + 1
    && var c, p := m.ctxts[j - 1], Step(env, m).m.ctxts[j - 1];
       c.pc < |c.code| && ChildOf(env, c, m.w, p, child)
  }

  /** Context `j` of a state that a run reaches from a single context was entered in turn `k`, and its
      parents have not moved since. */
  lemma {:induction false} OriginOf(env: Env, m0: Machine, n: nat, j: nat) returns (k: nat)
    requires Inv(m0) && m0.ctxts != [] && Nested(m0.ctxts) && |m0.ctxts| == 1
    requires Run(env, m0, n).Running? && 1 <= j < |Run(env, m0, n).m.ctxts|
    ensures k < n && Run(env, m0, k).Running? && Inv(Run(env, m0, n).m)
    ensures var m, mk := Run(env, m0, n).m, Run(env, m0, k).m;
            Enters(env, mk, j, m.ctxts[j]) && Step(env, mk).m.ctxts[..j] == m.ctxts[..j]
    decreases n
  {
    hide Step, Inv, Nested, Enters, ChildOf, SameFrame;
    RunKeepsInv(env, m0, n);
    if n > 0 {
      RunLast(env, m0, n);
      RunKeepsInv(env, m0, n - 1);
      var m', m := Run(env, m0, n - 1).m, Run(env, m0, n).m;
      OneMore(env, m');
      if j < |m'.ctxts| {
        k := OriginOf(env, m0, n - 1, j);
        FrozenStep(env, m', j);
        assert m'.ctxts[..j] == m.ctxts[..j];
        StillEnters(env, Run(env, m0, k).m, j, m'.ctxts[j], m.ctxts[j]);
      } else {
        k := n - 1;
        JustEntered(env, m', j);
      }
    }
  }

  /** A turn adds at most one context. */
  lemma OneMore(env: Env, m: Machine)
    requires Inv(m) && m.ctxts != [] && Nested(m.ctxts) && Step(env, m).Running?
    ensures |Step(env, m).m.ctxts| <= |m.ctxts| + 1
  {
    hide Step, Exec, Inv, Nested, Handed, EndedBy, WorldAfter, Resumed;
    var t := StepTurn(env, m);
  }

  lemma JustEntered(env: Env, m: Machine, j: nat)
    requires Inv(m) && m.ctxts != [] && Nested(m.ctxts) && Step(env, m).Running?
    requires |m.ctxts| == j && |Step(env, m).m.ctxts| == j + 1
    ensures Enters(env, m, j, Step(env, m).m.ctxts[j])
  {
    hide Step, Inv, Nested, ChildOf, Waiting, HandlerFits, WindowMatches;
    CallEntered(env, m);
  }

  lemma StillEnters(env: Env, m: Machine, j: nat, child: Ctx, later: Ctx)
    requires Enters(env, m, j, child) && SameFrame(child, later)
    ensures Enters(env, m, j, later)
  {
    hide Step, Inv, Nested, ChildOf, SameFrame;
    StillChildOf(env, m.ctxts[j - 1], m.w, Step(env, m).m.ctxts[j - 1], child, later);
  }
}
