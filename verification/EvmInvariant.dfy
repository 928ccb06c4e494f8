/** What holds in every reachable state of the run loop: instruction boundaries, memory bounds,
    nesting and lineage of contexts. */
module EvmInvariant {
  import opened Words
  import opened Bytecode
  import opened Alu
  import opened Evm
  import opened EvmShape

  /** The counter is at an instruction, or just past the code. */
  predicate PcOk(c: Ctx) {
    c.pc == |c.code| || IsInstruction(c.code, c.pc)
  }

  predicate Good(c: Ctx) {
    PcOk(c) && |c.mem| <= MAX_MEM
  }

  /** A parent sits at the opcode that made its child. */
  predicate WaitsFor(p: Ctx, child: Ctx) {
    && !p.pcChanged && p.pc < |p.code|
    && var op := p.code[p.pc];
       (IsCall(op) || op == CREATE) && Lineage(op, p, child) && HandlerFits(op, p, child)
  }

  /** The counter counts as changed only before the very first turn, with nothing on the stack yet. */
  predicate Untouched(c: Ctx) {
    c.pc == 0 && c.s == []
  }

  predicate Inv(m: Machine) {
    && m.ctxts != [] && |m.ctxts| <= MAX_CALL_DEPTH && Nested(m.ctxts)
    && (forall i :: 0 <= i < |m.ctxts| ==> Good(m.ctxts[i]))
    && (forall i :: 0 <= i < |m.ctxts| - 1 ==> WaitsFor(m.ctxts[i], m.ctxts[i + 1]))
    && var c := m.ctxts[|m.ctxts| - 1];
       (c.pcChanged ==> |m.ctxts| == 1 && Untouched(c))
  }

  lemma StartInv(caller: Word, callee: Word, input: seq<Byte>, callValue: Word, w: World)
    ensures Inv(Start(caller, callee, input, callValue, w))
  {
  }

  // ----- One turn keeps the invariant -----

  /** After any opcode the loop leaves the counter at an instruction boundary. */
  lemma SteppedPc(c: Ctx, d: Ctx)
    requires PcOk(c) && c.pc < |c.code| && d.code == c.code && PcAfter(c, d)
    ensures PcOk(StepPc(d)) && !StepPc(d).pcChanged
  {
    NextStarts(c.code, 0, c.pc);
    DestinationsAreJumpdests(c.code, 0, d.pc);
  }

  lemma FreshGood(child: Ctx)
    requires Fresh(child)
    ensures Good(StepPc(child)) && !StepPc(child).pcChanged
  {
  }

  /** Waiting depends only on what a running child never changes. */
  lemma StillWaits(p: Ctx, c: Ctx, d: Ctx)
    requires WaitsFor(p, c) && SameFrame(c, d)
    ensures WaitsFor(p, d)
  {
  }

  /** A resumed parent is one past its call, at an instruction boundary, within the memory limit,
      and the return data went into memory it already had. */
  lemma ResumedGood(p: Ctx, child: Ctx, e: Ending, v: Word, mem: seq<Byte>)
    requires Good(p) && WaitsFor(p, child) && Handed(p, child.handler, e, v, mem)
    ensures var r := Resumed(p, v, mem);
            Good(r) && SameFrame(p, r) && !r.pcChanged && r.pc == p.pc + 1 && |mem| == |p.mem|
  {
    NextStarts(p.code, 0, p.pc);
  }

  lemma OnwardKeepsInv(m: Machine, c: Ctx, w: World)
    requires Inv(m) && m.ctxts[|m.ctxts| - 1].pc < |m.ctxts[|m.ctxts| - 1].code|
    requires SameFrame(m.ctxts[|m.ctxts| - 1], c) && PcAfter(m.ctxts[|m.ctxts| - 1], c)
    requires MemoryGrows(m.ctxts[|m.ctxts| - 1], c)
    ensures Inv(m.(ctxts := m.ctxts[..|m.ctxts| - 1] + [StepPc(c)], w := w))
  {
    hide PcOk, WaitsFor, PcAfter;
    var n := |m.ctxts| - 1;
    assert Good(m.ctxts[n]);
    SteppedPc(m.ctxts[n], c);
    if n > 0 { StillWaits(m.ctxts[n - 1], m.ctxts[n], StepPc(c)); }
  }

  lemma EnterKeepsInv(m: Machine, c: Ctx, child: Ctx, w: World)
    requires Inv(m) && |m.ctxts| < MAX_CALL_DEPTH && m.ctxts[|m.ctxts| - 1].pc < |m.ctxts[|m.ctxts| - 1].code|
    requires var p := m.ctxts[|m.ctxts| - 1]; var op := p.code[p.pc];
             && (IsCall(op) || op == CREATE) && Waiting(op, p, c)
             && Lineage(op, p, child) && HandlerFits(op, c, child) && Fresh(child)
    ensures Inv(m.(ctxts := m.ctxts[..|m.ctxts| - 1] + [c, StepPc(child)], w := w))
  {
    var n := |m.ctxts| - 1;
    var p := m.ctxts[n];
    assert Good(p);
    FreshGood(child);
    assert SameFrame(p, c) && !c.pcChanged;
    assert WaitsFor(c, StepPc(child));
    hide PcOk, WaitsFor, Waiting, Lineage, HandlerFits;
    if n > 0 { StillWaits(m.ctxts[n - 1], p, c); }
  }

  lemma BackKeepsInv(m: Machine, j: nat, e: Ending, v: Word, mem: seq<Byte>, w: World)
    requires Inv(m) && j < |m.ctxts| - 1 && Handed(m.ctxts[j], m.ctxts[j + 1].handler, e, v, mem)
    ensures Inv(m.(ctxts := m.ctxts[..j] + [Resumed(m.ctxts[j], v, mem)], w := w))
  {
    hide PcOk, WaitsFor, Handed, Resumed;
    ResumedGood(m.ctxts[j], m.ctxts[j + 1], e, v, mem);
    if j > 0 { StillWaits(m.ctxts[j - 1], m.ctxts[j], Resumed(m.ctxts[j], v, mem)); }
  }

  lemma StepKeepsInv(env: Env, m: Machine)
    requires Inv(m) && Step(env, m).Running?
    ensures Inv(Step(env, m).m)
  {
    hide Step, Exec, Inv, Nested, SameFrame, PcAfter, MemoryGrows, Waiting, Lineage, HandlerFits, Fresh, Handed,
         EndedBy, WorldAfter, Resumed;
    InvParts(m);
    var t := StepTurn(env, m);
    var n := |m.ctxts| - 1;
    NextShape(env, n + 1, m.ctxts[n], m.w);
    EnteredShape(env, n + 1, m.ctxts[n], m.w);
    match t
    case Onward(c) => OnwardKeepsInv(m, c, Step(env, m).m.w);
    case Enter(c, child) => EnterKeepsInv(m, c, child, Step(env, m).m.w);
    case Back(j, e, v, mem) => BackKeepsInv(m, j, e, v, mem, Step(env, m).m.w);
  }

  lemma InvParts(m: Machine)
    requires Inv(m)
    ensures m.ctxts != [] && Nested(m.ctxts)
  {
  }

  // ----- Every reachable state -----

  lemma {:induction false} RunKeepsInv(env: Env, m: Machine, n: nat)
    requires Inv(m)
    ensures Run(env, m, n).Running? ==> Inv(Run(env, m, n).m)
    decreases n
  {
    hide Step, Inv;
    InvParts(m);
    if n > 0 && Step(env, m).Running? {
      StepKeepsInv(env, m);
      RunKeepsInv(env, Step(env, m).m, n - 1);
    }
  }

  /** The invariant holds after any number of turns from any call of `run`. */
  lemma ReachableInv(env: Env, caller: Word, callee: Word, input: seq<Byte>, callValue: Word, w: World, n: nat)
    ensures var st := Run(env, Start(caller, callee, input, callValue, w), n); st.Running? ==> Inv(st.m)
  {
    hide Inv;
    StartInv(caller, callee, input, callValue, w);
    RunKeepsInv(env, Start(caller, callee, input, callValue, w), n);
  }

  /** No context ever points into the immediate bytes of an instruction. */
  lemma NeverInImmediate(m: Machine, i: nat, q: nat)
    requires Inv(m) && i < |m.ctxts| && IsInstruction(m.ctxts[i].code, q)
    ensures q < |m.ctxts[i].code|
    ensures m.ctxts[i].pc <= |m.ctxts[i].code|
    ensures m.ctxts[i].pc < |m.ctxts[i].code| ==> !(q < m.ctxts[i].pc < NextInstruction(m.ctxts[i].code, q))
  {
    var c := m.ctxts[i];
    assert Good(c);
    StartsInside(c.code, 0, q);
    if c.pc != |c.code| {
      StartsInside(c.code, 0, c.pc);
      NoStartInImmediate(c.code, 0, q, c.pc);
    }
  }

  /** Returning into a parent cannot fail and cannot resize it: the call sized the window beforehand. */
  lemma ReturnWindowFits(m: Machine, i: nat, output: seq<Byte>)
    requires Inv(m) && i < |m.ctxts| - 1 && m.ctxts[i + 1].handler.CallRet?
    ensures var h := m.ctxts[i + 1].handler;
            var r := CopyMem(m.ctxts[i].mem, h.offOut, output, 0, h.sizeOut, 0);
            r.Ok? && |r.value| == |m.ctxts[i].mem|
  {
    assert WaitsFor(m.ctxts[i], m.ctxts[i + 1]);
    assert Good(m.ctxts[i]);
  }

  /** The memory of every context that survives a turn has not shrunk, and stays within the limit. */
  lemma MemoriesGrow(env: Env, m: Machine, i: nat)
    requires Inv(m) && Step(env, m).Running? && i < |m.ctxts| && i < |Step(env, m).m.ctxts|
    ensures |m.ctxts[i].mem| <= |Step(env, m).m.ctxts[i].mem| <= MAX_MEM
  {
    hide Step, Exec, Inv, Nested, TurnOf, SameFrame, PcAfter, MemoryGrows, GrownFrom, Lineage, HandlerFits, Fresh;
    InvParts(m);
    StepKeepsInv(env, m);
    WithinLimit(Step(env, m).m, i);
    var t := StepTurn(env, m);
    var n := |m.ctxts| - 1;
    NextShape(env, n + 1, m.ctxts[n], m.w);
    EnteredShape(env, n + 1, m.ctxts[n], m.w);
    if t.Back? { BackBounds(m, Exec(env, n + 1, m.ctxts[n], m.w), t, Step(env, m).m); }
    TurnMemories(m, Exec(env, n + 1, m.ctxts[n], m.w), t, Step(env, m).m, i);
  }

  lemma WithinLimit(m: Machine, i: nat)
    requires Inv(m) && i < |m.ctxts|
    ensures |m.ctxts[i].mem| <= MAX_MEM
  {
    assert Good(m.ctxts[i]);
  }

  /** A context that hands over leaves its parent's memory at its size. */
  lemma BackBounds(m: Machine, o: Outcome, t: Turn, m1: Machine)
    requires Inv(m) && t.Back? && TurnOf(m, o, t, m1)
    ensures t.j < |m.ctxts| - 1 && |t.mem| == |m.ctxts[t.j].mem|
  {
    BackParts(m, t.j);
    ResumedGood(m.ctxts[t.j], m.ctxts[t.j + 1], t.e, t.v, t.mem);
  }

  lemma TurnMemories(m: Machine, o: Outcome, t: Turn, m1: Machine, i: nat)
    requires m.ctxts != [] && TurnOf(m, o, t, m1) && i < |m.ctxts| && i < |m1.ctxts|
    requires o.Next? ==> MemoryGrows(m.ctxts[|m.ctxts| - 1], o.c)
    requires o.Entered? ==> GrownFrom(m.ctxts[|m.ctxts| - 1].mem, o.c.mem)
    requires t.Back? ==> t.j < |m.ctxts| - 1 && |t.mem| == |m.ctxts[t.j].mem|
    ensures |m.ctxts[i].mem| <= |m1.ctxts[i].mem|
  {
    hide Handed, EndedBy, WorldAfter;
  }

  lemma BackParts(m: Machine, j: nat)
    requires Inv(m) && j < |m.ctxts| - 1
    ensures Good(m.ctxts[j]) && WaitsFor(m.ctxts[j], m.ctxts[j + 1])
  {
  }

  // ----- Lineage -----

  /** Each waiting context sits, counter unchanged, at the call that made the context above it, and
      that opcode fixes on whose behalf the child runs. */
  lemma LineageOf(m: Machine, i: nat)
    requires Inv(m) && i < |m.ctxts| - 1
    ensures var p := m.ctxts[i];
            !p.pcChanged && p.pc < |p.code| && (IsCall(p.code[p.pc]) || p.code[p.pc] == CREATE)
            && Lineage(p.code[p.pc], p, m.ctxts[i + 1])
  {
    assert WaitsFor(m.ctxts[i], m.ctxts[i + 1]);
  }

  /** A chain of DELEGATECALLs of any length keeps the caller, account and call value of its origin. */
  lemma {:induction false} DelegateChain(m: Machine, i: nat, j: nat)
    requires Inv(m) && i <= j < |m.ctxts|
    requires forall k :: i <= k < j ==>
               m.ctxts[k].pc < |m.ctxts[k].code| && m.ctxts[k].code[m.ctxts[k].pc] == DELEGATECALL
    ensures m.ctxts[j].caller == m.ctxts[i].caller && m.ctxts[j].acc == m.ctxts[i].acc
    ensures m.ctxts[j].callValue == m.ctxts[i].callValue
    decreases j - i
  {
    if i < j {
      LineageOf(m, j - 1);
      DelegateChain(m, i, j - 1);
    }
  }
}
