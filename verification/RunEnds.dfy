/** How a run begins and ends: what the outermost context is, what its ending leaves as the result, and what
    the clean-up removes. */
module RunEnds {
  import opened Words
  import opened Bytecode
  import opened Alu
  import opened Evm
  import opened EvmShape
  import opened EvmInvariant
  import opened CallResume

  // ----- The outermost context -----

  /** A context that runs the code of `callee` for `callee`, called by `caller` with this input and value. */
  predicate CalledBy(c: Ctx, caller: Word, callee: Word, input: seq<Byte>, callValue: Word, code: seq<Byte>) {
    c.caller == caller && c.acc == callee && c.input == input && c.callValue == callValue && c.code == code
  }

  /** `run` starts with one such context, at the first instruction, with nothing on its stack and in its
      memory, and it is the outermost one to the end. */
  lemma Outermost(env: Env, caller: Word, callee: Word, input: seq<Byte>, callValue: Word, w: World, n: nat)
    ensures var m := Start(caller, callee, input, callValue, w);
            && m.w == w && |m.ctxts| == 1 && m.ctxts[0].pc == 0 && m.ctxts[0].s == [] && m.ctxts[0].mem == []
            && Nested(m.ctxts)
            && var st := Run(env, m, n);
               st.Running? ==> CalledBy(st.m.ctxts[0], caller, callee, input, callValue, Lookup(w, callee).code)
  {
    hide Step;
    var m := Start(caller, callee, input, callValue, w);
    StartInv(caller, callee, input, callValue, w);
    FrameStays(env, m, n);
  }

  lemma {:induction false} FrameStays(env: Env, m: Machine, n: nat)
    requires Inv(m) && m.ctxts != [] && Nested(m.ctxts)
    ensures var st := Run(env, m, n); st.Running? ==> SameFrame(m.ctxts[0], st.m.ctxts[0])
    ensures var st := Run(env, m, n); st.Running? ==> st.m.result == m.result
    decreases n
  {
    hide Step, Inv, Nested;
    if n > 0 && Step(env, m).Running? {
      StepKeepsInv(env, m);
      FrozenStep(env, m, 0);
      ResultWaits(env, m);
      FrameStays(env, Step(env, m).m, n - 1);
    }
  }

  /** The result is written by the last turn only. */
  lemma ResultWaits(env: Env, m: Machine)
    requires Inv(m) && m.ctxts != [] && Nested(m.ctxts) && Step(env, m).Running?
    ensures Step(env, m).m.result == m.result
  {
    hide Step, Exec, Inv, Nested, Handed, EndedBy, WorldAfter, Resumed;
    var t := StepTurn(env, m);
  }

  // ----- The last turn -----

  /** What the last turn leaves. The outermost context hands over what its instruction came to; code that
      runs off halts it. Below it a run can end in two more ways: code of a child runs off, which leaves
      the result as it was, or a child halts under an outermost context with a full stack, which throws. */
  lemma LastTurn(env: Env, m: Machine)
    requires Inv(m)
    ensures m.ctxts != [] && Nested(m.ctxts)
    ensures Step(env, m).Finished? ==>
              var n := |m.ctxts| - 1; var c, st := m.ctxts[n], Step(env, m).m;
              if c.pc >= |c.code| then
                st.w == m.w && st.result == if n == 0 then m.result.(er := ExitHalted) else m.result
              else
                var o := Exec(env, n + 1, c, m.w);
                && st.w == o.w && n <= 1 && (o.Halted? || o.Returned? || o.Threw?)
                && (n == 0 && o.Halted? ==> st.result == m.result.(er := ExitHalted))
                && (n == 0 && o.Returned? ==> st.result == m.result.(er := ExitReturned, output := o.output))
                && (n == 0 && o.Threw? ==> st.result == m.result.(er := ExitThrew, ex := o.error))
                && (n == 1 ==>
                      o.Halted? && |m.ctxts[0].s| == MAX_STACK
                      && st.result == m.result.(er := ExitThrew, ex := OutOfBounds))
  {
    hide Exec, Inv, Deliver, Nested;
    InvParts(m);
    var n := |m.ctxts| - 1;
    var c := m.ctxts[n];
    if c.pc < |c.code| {
      ExecKeepsHandler(env, n + 1, c, m.w);
      LastDelivery(m, Exec(env, n + 1, c, m.w));
    } else {
      LastFallOff(m);
    }
  }

  lemma LastFallOff(m: Machine)
    requires m.ctxts != [] && Nested(m.ctxts)
    ensures var n, st := |m.ctxts| - 1, FallOff(m);
            st.Finished? ==> st.m.w == m.w && st.m.result == if n == 0 then m.result.(er := ExitHalted) else m.result
  {
  }

  lemma LastDelivery(m: Machine, o: Outcome)
    requires m.ctxts != [] && Nested(m.ctxts)
    requires o.Next? ==> o.c.handler == m.ctxts[|m.ctxts| - 1].handler
    requires o.Entered? ==> o.c.handler == m.ctxts[|m.ctxts| - 1].handler && !o.child.handler.Top?
    ensures var n, st := |m.ctxts| - 1, Deliver(m, o);
            st.Finished? ==>
              && st.m.w == o.w && n <= 1 && (o.Halted? || o.Returned? || o.Threw?)
              && (n == 0 && o.Halted? ==> st.m.result == m.result.(er := ExitHalted))
              && (n == 0 && o.Returned? ==> st.m.result == m.result.(er := ExitReturned, output := o.output))
              && (n == 0 && o.Threw? ==> st.m.result == m.result.(er := ExitThrew, ex := o.error))
              && (n == 1 ==>
                    o.Halted? && |m.ctxts[0].s| == MAX_STACK
                    && st.m.result == m.result.(er := ExitThrew, ex := OutOfBounds))
  {
    hide OnReturn, OnException, OnHalt, Nested;
    var n := |m.ctxts| - 1;
    var h := m.ctxts[n].handler;
    NestedSplit(m.ctxts);
    match o
    case Threw(e, w) => LastThrow(m.(ctxts := m.ctxts[..n], w := w), h, e);
    case Returned(output, w) => LastReturn(m.(ctxts := m.ctxts[..n], w := w), h, output);
    case Halted(w) => LastHalt(m.(ctxts := m.ctxts[..n], w := w), h);
    case _ =>
  }

  lemma LastThrow(m: Machine, h: Handler, e: ErrorType)
    requires Popped(m, h)
    ensures var st := OnException(m, h, e);
            st.Finished? ==> m.ctxts == [] && st.m == m.(result := m.result.(er := ExitThrew, ex := e))
  {
    hide Nested;
  }

  lemma LastReturn(m: Machine, h: Handler, output: seq<Byte>)
    requires Popped(m, h)
    ensures var st := OnReturn(m, h, output);
            st.Finished? ==> m.ctxts == [] && st.m == m.(result := m.result.(er := ExitReturned, output := output))
  {
    hide Nested, CopyMem;
  }

  lemma LastHalt(m: Machine, h: Handler)
    requires Popped(m, h)
    ensures var st := OnHalt(m, h);
            st.Finished? ==>
              && st.m.w == m.w
              && (m.ctxts == [] ==> st.m.result == m.result.(er := ExitHalted))
              && (m.ctxts != [] ==>
                    |m.ctxts| == 1 && |m.ctxts[0].s| == MAX_STACK
                    && st.m.result == m.result.(er := ExitThrew, ex := OutOfBounds))
  {
    hide OnException;
    if !h.Top? {
      NestedSplit(m.ctxts);
      var n := |m.ctxts| - 1;
      LastThrow(m.(ctxts := m.ctxts[..n]), m.ctxts[n].handler, OutOfBounds);
    }
  }

  /** The outermost context always ends the run when it halts, returns or throws, or runs off its code. */
  lemma OutermostEnds(env: Env, m: Machine)
    requires Inv(m) && |m.ctxts| == 1
    requires var c := m.ctxts[0];
             c.pc >= |c.code| || Exec(env, 1, c, m.w).Halted? || Exec(env, 1, c, m.w).Returned?
             || Exec(env, 1, c, m.w).Threw?
    ensures Nested(m.ctxts) && Step(env, m).Finished?
  {
    hide Exec, Inv;
    InvParts(m);
    assert m.ctxts[..0] == [];
  }

  /** The result of a run that has ended: the last turn's, on top of nothing returned and nothing thrown. */
  lemma RunResult(env: Env, caller: Word, callee: Word, input: seq<Byte>, callValue: Word, w: World, n: nat)
    ensures var st := Run(env, Start(caller, callee, input, callValue, w), n);
            st.Running? ==> Inv(st.m) && st.m.result == ExecResult(ExitReturned, OutOfBounds, [])
  {
    hide Step, Inv;
    StartInv(caller, callee, input, callValue, w);
    var m := Start(caller, callee, input, callValue, w);
    FrameStays(env, m, n);
    RunKeepsInv(env, m, n);
  }

  // ----- The clean-up -----

  /** The clean-up removes exactly the noted accounts and keeps all others as they are. */
  lemma CleanedUp(w: World, a: Word)
    ensures a in CleanUp(w).accounts <==> a in w.accounts && a !in w.destructs
    ensures a in CleanUp(w).accounts ==> CleanUp(w).accounts[a] == w.accounts[a]
  {
  }
}
