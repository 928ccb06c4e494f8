/** Calls over whole runs: whatever tree of calls runs below it, a parent that gets control back
    gets exactly one result word and its output window. */
module CallResume {
  import opened Words
  import opened Bytecode
  import opened Alu
  import opened Evm
  import opened EvmShape
  import opened EvmInvariant
  import opened CallEntry

  /** For `n` turns the loop goes on with more than `k` contexts. */
  predicate StaysAbove(env: Env, m: Machine, k: nat, n: nat)
    requires m.ctxts != [] && Nested(m.ctxts)
    decreases n
  {
    |m.ctxts| > k && (n == 0 || (Step(env, m).Running? && StaysAbove(env, Step(env, m).m, k, n - 1)))
  }

  /** The output window of a call, by its operands; a creation has none. */
  function WindowOf(c: Ctx, op: Byte): (nat, nat)
    requires |c.s| >= OperandCount(op)
  {
    if op == CREATE then (0, 0) else (c.s[OperandCount(op) - 2], c.s[OperandCount(op) - 1])
  }

  /** The context `c` before its call and `d` after it: one past the call, operands replaced by one
      word, memory grown with zeros and changed in the output window only, nothing else touched. */
  predicate ResumesFrom(c: Ctx, d: Ctx)
    requires c.pc < |c.code|
  {
    var op := c.code[c.pc];
    && |c.s| >= OperandCount(op)
    && SameFrame(c, d) && d.pc == c.pc + 1 && !d.pcChanged
    && |d.s| >= 1 && d.s[1..] == c.s[OperandCount(op)..]
    && |c.mem| <= |d.mem|
    && var (off, size) := WindowOf(c, op);
       off + size <= |d.mem|
       && forall i :: 0 <= i < |d.mem| && !(off <= i < off + size) ==> d.mem[i] == if i < |c.mem| then c.mem[i] else 0
  }

  /** The result word, and for a returning call the output window, by the way the child ended. */
  predicate ResultOf(c: Ctx, d: Ctx, child: Ctx, e: Ending)
    requires c.pc < |c.code| && ResumesFrom(c, d)
  {
    var op := c.code[c.pc];
    match e
    case ByThrow => d.s[0] == 0
    case ByHalt => d.s[0] == if op == CREATE then 0 else 1
    case ByReturn(output) =>
      if op == CREATE then d.s[0] == child.acc
      else
        var (off, size) := WindowOf(c, op);
        d.s[0] == 1 && forall i :: 0 <= i < size ==> d.mem[off + i] == if i < |output| then output[i] else 0
  }

  // ----- While the child runs, its parents do not move -----

  lemma FrozenStep(env: Env, m: Machine, k: nat)
    requires Inv(m) && Step(env, m).Running? && k < |m.ctxts| && k < |Step(env, m).m.ctxts|
    ensures Step(env, m).m.ctxts[..k] == m.ctxts[..k]
    ensures SameFrame(m.ctxts[k], Step(env, m).m.ctxts[k])
  {
    hide Step, Exec, Inv, Nested, TurnOf, SameFrame, PcAfter, MemoryGrows, Lineage, HandlerFits, Fresh;
    InvParts(m);
    var t := StepTurn(env, m);
    var n := |m.ctxts| - 1;
    NextShape(env, n + 1, m.ctxts[n], m.w);
    EnteredShape(env, n + 1, m.ctxts[n], m.w);
    WaitingSameFrame(m.ctxts[n], Exec(env, n + 1, m.ctxts[n], m.w));
    FrozenTurn(m, Exec(env, n + 1, m.ctxts[n], m.w), t, Step(env, m).m, k);
  }

  lemma WaitingSameFrame(c: Ctx, o: Outcome)
    requires c.pc < |c.code|
    ensures o.Entered? && Waiting(c.code[c.pc], c, o.c) ==> SameFrame(c, o.c)
  {
  }

  lemma FrozenTurn(m: Machine, o: Outcome, t: Turn, m1: Machine, k: nat)
    requires m.ctxts != [] && TurnOf(m, o, t, m1) && k < |m.ctxts| && k < |m1.ctxts|
    requires o.Next? ==> SameFrame(m.ctxts[|m.ctxts| - 1], o.c)
    requires o.Entered? ==> SameFrame(m.ctxts[|m.ctxts| - 1], o.c)
    ensures m1.ctxts[..k] == m.ctxts[..k] && SameFrame(m.ctxts[k], m1.ctxts[k])
  {
    hide Handed, EndedBy, WorldAfter;
  }

  lemma {:induction false} Frozen(env: Env, m: Machine, k: nat, n: nat)
    requires Inv(m) && StaysAbove(env, m, k, n)
    ensures Run(env, m, n).Running?
    ensures var m1 := Run(env, m, n).m;
            Inv(m1) && |m1.ctxts| > k && m1.ctxts[..k] == m.ctxts[..k] && SameFrame(m.ctxts[k], m1.ctxts[k])
    decreases n
  {
    hide Step, Inv;
    InvParts(m);
    if n > 0 {
      var m1 := Step(env, m).m;
      StepKeepsInv(env, m);
      AboveNow(env, m1, k, n - 1);
      FrozenStep(env, m, k);
      Frozen(env, m1, k, n - 1);
    }
  }

  lemma AboveNow(env: Env, m: Machine, k: nat, n: nat)
    requires Inv(m) && StaysAbove(env, m, k, n)
    ensures |m.ctxts| > k
  {
  }

  // ----- The turn that gives control back -----

  /** Dropping from above `k` contexts to `k` or fewer hands over to context `k - 1`, if it has room. */
  lemma HandOver(env: Env, m: Machine, k: nat) returns (e: Ending, v: Word, mem: seq<Byte>)
    requires Inv(m) && Step(env, m).Running? && 0 < k < |m.ctxts| && |Step(env, m).m.ctxts| <= k
    requires |m.ctxts[k - 1].s| < MAX_STACK
    ensures Handed(m.ctxts[k - 1], m.ctxts[k].handler, e, v, mem)
    ensures Step(env, m).m.ctxts == m.ctxts[..k - 1] + [Resumed(m.ctxts[k - 1], v, mem)]
    ensures m.ctxts[|m.ctxts| - 1].pc < |m.ctxts[|m.ctxts| - 1].code|
    ensures EndedBy(m, Exec(env, |m.ctxts|, m.ctxts[|m.ctxts| - 1], m.w), k - 1, e)
  {
    hide Step, Exec, Inv, Nested, Handed, EndedBy, Resumed, WorldAfter;
    InvParts(m);
    var t := StepTurn(env, m);
    match t
    case Onward(_) =>
    case Enter(_, _) =>
    case Back(j, e0, v0, mem0) =>
      TwoLevels(m, Exec(env, |m.ctxts|, m.ctxts[|m.ctxts| - 1], m.w), j, e0);
      e, v, mem := e0, v0, mem0;
  }

  lemma TwoLevels(m: Machine, o: Outcome, j: nat, e: Ending)
    requires m.ctxts != [] && j < |m.ctxts| - 1 && EndedBy(m, o, j, e)
    ensures j + 2 < |m.ctxts| ==> |m.ctxts[j + 1].s| == MAX_STACK
  {
  }

  // ----- The theorem -----

  /** From `m` the loop enters a child (`m1`); the child and everything it calls run for `n` turns
      (`last`); then control comes back (`m2`). Whatever happened in between, the parent resumes one
      past its call with one result word, and every context below it is as it was. */
  lemma CallResumes(env: Env, m: Machine, m1: Machine, n: nat, last: Machine, m2: Machine) returns (e: Ending)
    requires Inv(m) && Step(env, m) == Running(m1) && |m1.ctxts| == |m.ctxts| + 1
    requires StaysAbove(env, m1, |m.ctxts|, n) && Run(env, m1, n) == Running(last)
    requires Step(env, last) == Running(m2) && |m2.ctxts| <= |m.ctxts|
    requires |m.ctxts[|m.ctxts| - 1].s| <= MAX_STACK
    ensures |m2.ctxts| == |m.ctxts|
    ensures m2.ctxts[..|m.ctxts| - 1] == m.ctxts[..|m.ctxts| - 1]
    ensures var c, d, top := m.ctxts[|m.ctxts| - 1], m2.ctxts[|m.ctxts| - 1], last.ctxts[|last.ctxts| - 1];
            && c.pc < |c.code| && ResumesFrom(c, d) && ResultOf(c, d, m1.ctxts[|m.ctxts|], e)
            && ChildOf(env, c, m.w, m1.ctxts[|m.ctxts| - 1], m1.ctxts[|m.ctxts|])
            && |last.ctxts| > |m.ctxts| && top.pc < |top.code|
            && var o := Exec(env, |last.ctxts|, top, last.w);
               EndedBy(last, o, |m.ctxts| - 1, e) && (e.ByThrow? ==> !o.Returned?)
  {
    hide Step, Exec, Inv, Nested, Handed, EndedBy, Resumed, StaysAbove, ResumesFrom, ResultOf, Waiting,
         HandlerFits, SameFrame, WindowMatches, Run, ChildOf;
    InvParts(m);
    var k := |m.ctxts|;
    CallEntered(env, m);
    StepKeepsInv(env, m);
    Frozen(env, m1, k, n);
    var c, p := m.ctxts[k - 1], m1.ctxts[k - 1];
    assert last.ctxts[..k][k - 1] == last.ctxts[k - 1] && m1.ctxts[..k][k - 1] == p;
    OperandsLeaveRoom(c, p);
    var v, mem;
    e, v, mem := HandOver(env, last, k);
    assert last.ctxts[..k - 1] == last.ctxts[..k][..k - 1] == m1.ctxts[..k][..k - 1] == m1.ctxts[..k - 1];
    ResumeFacts(c, p, m1.ctxts[k], last.ctxts[k], e, v, mem);
    NoFailedReturn(last, Exec(env, |last.ctxts|, last.ctxts[|last.ctxts| - 1], last.w), k - 1, e);
  }

  lemma CallEntered(env: Env, m: Machine)
    requires Inv(m) && Step(env, m).Running? && |Step(env, m).m.ctxts| == |m.ctxts| + 1
    ensures var k := |m.ctxts|; var m1 := Step(env, m).m; var c := m.ctxts[k - 1];
            && m1.ctxts[..k - 1] == m.ctxts[..k - 1]
            && c.pc < |c.code| && !c.pcChanged && (IsCall(c.code[c.pc]) || c.code[c.pc] == CREATE)
            && Waiting(c.code[c.pc], c, m1.ctxts[k - 1])
            && HandlerFits(c.code[c.pc], m1.ctxts[k - 1], m1.ctxts[k]) && WindowMatches(c, m1.ctxts[k])
            && ChildOf(env, c, m.w, m1.ctxts[k - 1], m1.ctxts[k])
  {
    hide Step, Exec, Inv, Nested, Lineage, TurnOf, WindowMatches, Waiting, ChildOf;
    InvParts(m);
    var t := StepTurn(env, m);
    var k := |m.ctxts|;
    var c := m.ctxts[k - 1];
    EnteredShape(env, k, c, m.w);
    EnteredWindow(env, k, c, m.w);
    EnteredChild(env, k, c, m.w);
    EnterParts(m, Exec(env, k, c, m.w), t, Step(env, m).m);
    EnteredUnchanged(m, Exec(env, k, c, m.w));
    var o := Exec(env, k, c, m.w);
    StillChildOf(env, c, m.w, o.c, o.child, StepPc(o.child));
  }

  /** Only an entering turn adds a context. */
  lemma EnterParts(m: Machine, o: Outcome, t: Turn, m1: Machine)
    requires m.ctxts != [] && TurnOf(m, o, t, m1) && |m1.ctxts| == |m.ctxts| + 1
    ensures var k := |m.ctxts|;
            && o.Entered? && m1.ctxts[..k - 1] == m.ctxts[..k - 1]
            && m1.ctxts[k - 1] == o.c && m1.ctxts[k] == StepPc(o.child)
  {
    hide Handed, EndedBy, Resumed, WorldAfter;
  }

  /** The handler remembers the window the operands named. */
  predicate WindowMatches(c: Ctx, child: Ctx)
    requires c.pc < |c.code|
  {
    var op := c.code[c.pc];
    child.handler.CallRet? ==>
      |c.s| >= OperandCount(op) && (child.handler.offOut, child.handler.sizeOut) == WindowOf(c, op)
  }

  lemma EnteredWindow(env: Env, depth: nat, c: Ctx, w: World)
    requires c.pc < |c.code|
    ensures var o := Exec(env, depth, c, w); o.Entered? ==> WindowMatches(c, StepPc(o.child))
  {
    hide MemoryOp, StackOp, ReadOp, CopyOp, PayTo, CallOperands, CallWindows, CreateOperands, ValidDestinations;
    var op := c.code[c.pc];
    if IsCall(op) { CallOperandsShape(op, c.s); }
  }

  lemma EnteredUnchanged(m: Machine, o: Outcome)
    requires Inv(m) && o.Entered?
    requires var c := m.ctxts[|m.ctxts| - 1]; c.pc < |c.code| && Waiting(c.code[c.pc], c, o.c)
    ensures !m.ctxts[|m.ctxts| - 1].pcChanged
  {
  }

  lemma OperandsLeaveRoom(c: Ctx, p: Ctx)
    requires c.pc < |c.code| && |c.s| <= MAX_STACK && Waiting(c.code[c.pc], c, p)
    ensures |p.s| < MAX_STACK
  {
  }

  /** From the call's own effect and the handler's effect to the parent's view. */
  lemma ResumeFacts(c: Ctx, p: Ctx, child: Ctx, ended: Ctx, e: Ending, v: Word, mem: seq<Byte>)
    requires c.pc < |c.code| && !c.pcChanged && (IsCall(c.code[c.pc]) || c.code[c.pc] == CREATE)
    requires Waiting(c.code[c.pc], c, p) && HandlerFits(c.code[c.pc], p, child) && WindowMatches(c, child)
    requires SameFrame(child, ended) && Handed(p, ended.handler, e, v, mem)
    ensures ResumesFrom(c, Resumed(p, v, mem)) && ResultOf(c, Resumed(p, v, mem), child, e)
  {
    var d := Resumed(p, v, mem);
    var op := c.code[c.pc];
    var (off, size) := WindowOf(c, op);
    assert d.s[1..] == p.s;
    WrittenWindow(p.mem, child.handler, e, v, mem, off, size);
    forall i | 0 <= i < |d.mem| && !(off <= i < off + size)
      ensures d.mem[i] == if i < |c.mem| then c.mem[i] else 0
    {
      assert d.mem[i] == p.mem[i];
      if i < |c.mem| { assert p.mem[..|c.mem|][i] == p.mem[i]; }
    }
  }

  lemma WrittenWindow(pmem: seq<Byte>, h: Handler, e: Ending, v: Word, mem: seq<Byte>, off: nat, size: nat)
    requires h.CallRet? ==> h.offOut == off && h.sizeOut == size && off + size <= |pmem|
    requires h.CreateRet? ==> size == 0
    requires e.ByReturn? && h.CallRet? ==> CopyMem(pmem, off, e.output, 0, size, 0) == Ok(mem)
    requires !(e.ByReturn? && h.CallRet?) ==> mem == pmem
    ensures |mem| == |pmem|
    ensures forall i :: 0 <= i < |mem| && !(off <= i < off + size) ==> mem[i] == pmem[i]
    ensures e.ByReturn? && h.CallRet? ==>
              forall i :: 0 <= i < size ==> mem[off + i] == if i < |e.output| then e.output[i] else 0
  {
  }

  /** Return data always fits, so an exception ending really was an exception. */
  lemma NoFailedReturn(m: Machine, o: Outcome, j: nat, e: Ending)
    requires Inv(m) && j < |m.ctxts| - 1 && EndedBy(m, o, j, e)
    ensures e.ByThrow? ==> !o.Returned?
  {
    if j + 2 == |m.ctxts| && o.Returned? && m.ctxts[j + 1].handler.CallRet? {
      ReturnWindowFits(m, j, o.output);
    }
  }

  /** The hand-over always happens: a child that returns, halts or throws gives control back to a parent
      with room for one word. Nothing escapes, whatever the handlers do. */
  lemma EndingsHandOver(env: Env, m: Machine)
    requires Inv(m) && |m.ctxts| >= 2 && |m.ctxts[|m.ctxts| - 2].s| < MAX_STACK
    requires var c := m.ctxts[|m.ctxts| - 1];
             c.pc < |c.code| && var o := Exec(env, |m.ctxts|, c, m.w); o.Threw? || o.Returned? || o.Halted?
    ensures m.ctxts != [] && Nested(m.ctxts)
    ensures Step(env, m).Running? && |Step(env, m).m.ctxts| == |m.ctxts| - 1
  {
    hide Exec, Inv, Nested, FallOff, OnException, OnReturn, OnHalt;
    InvParts(m);
    var n := |m.ctxts| - 1;
    var c := m.ctxts[n];
    var o := Exec(env, n + 1, c, m.w);
    NestedSplit(m.ctxts);
    var below := m.(ctxts := m.ctxts[..n], w := o.w);
    match o
    case Threw(e, _) => ThrowHandsOver(below, c.handler, e);
    case Returned(output, _) =>
      if c.handler.CallRet? { ReturnWindowFits(m, n - 1, output); }
      ReturnHandsOver(below, c.handler, output);
    case Halted(_) => HaltHandsOver(below, c.handler);
  }

  lemma ThrowHandsOver(m: Machine, h: Handler, e: ErrorType)
    requires Popped(m, h) && m.ctxts != [] && |m.ctxts[|m.ctxts| - 1].s| < MAX_STACK
    ensures var st := OnException(m, h, e); st.Running? && |st.m.ctxts| == |m.ctxts|
  {
    hide Nested;
  }

  lemma HaltHandsOver(m: Machine, h: Handler)
    requires Popped(m, h) && m.ctxts != [] && |m.ctxts[|m.ctxts| - 1].s| < MAX_STACK
    ensures var st := OnHalt(m, h); st.Running? && |st.m.ctxts| == |m.ctxts|
  {
    hide Nested, OnException;
  }

  lemma ReturnHandsOver(m: Machine, h: Handler, output: seq<Byte>)
    requires Popped(m, h) && m.ctxts != [] && |m.ctxts[|m.ctxts| - 1].s| < MAX_STACK
    requires h.CallRet? ==> CopyMem(m.ctxts[|m.ctxts| - 1].mem, h.offOut, output, 0, h.sizeOut, 0).Ok?
    ensures var st := OnReturn(m, h, output); st.Running? && |st.m.ctxts| == |m.ctxts|
  {
    hide Nested, OnException, CopyMem;
  }
}
