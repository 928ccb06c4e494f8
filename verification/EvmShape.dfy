/** The shape of one turn of the run loop: what an opcode may change in its own context, what a call
    pushes, and what a finished context hands to its parent. The whole-run theorems build on these. */
module EvmShape {
  import opened Words
  import opened Bytecode
  import opened Alu
  import opened Evm

  // ----- One opcode -----

  /** Everything of a context that no opcode changes. */
  predicate SameFrame(c: Ctx, d: Ctx) {
    c.acc == d.acc && c.caller == d.caller && c.input == d.input && c.callValue == d.callValue
    && c.code == d.code && c.handler == d.handler
  }

  /** The ways an opcode leaves the program counter of the context that goes on. */
  predicate PcAfter(c: Ctx, d: Ctx)
    requires c.pc < |c.code|
  {
    var op := c.code[c.pc];
    || (!IsPush(op) && d.pc == c.pc && d.pcChanged == c.pcChanged)
    || (IsPush(op) && d.pcChanged && d.pc == NextInstruction(c.code, c.pc) && d.pc <= |c.code|)
    || ((op == JUMP || op == JUMPI) && d.pcChanged && d.pc in ValidDestinations(c.code, 0))
  }

  /** Memories never shrink and never pass the limit. */
  predicate MemoryGrows(c: Ctx, d: Ctx) {
    |c.mem| <= |d.mem| && (|c.mem| <= MAX_MEM ==> |d.mem| <= MAX_MEM)
  }

  lemma NextShape(env: Env, depth: nat, c: Ctx, w: World)
    requires c.pc < |c.code|
    ensures var o := Exec(env, depth, c, w);
            o.Next? ==> SameFrame(c, o.c) && PcAfter(c, o.c) && MemoryGrows(c, o.c)
  {
    hide MemoryOp, StackOp, ReadOp, CopyOp, PayTo, CallOperands, CallWindows, CreateOperands, ValidDestinations;
    var op := c.code[c.pc];
    if IsMemoryOp(op) {
      MemoryOpGrows(op, env, c);
    } else if IsWorldOp(op) {
      WorldOpShape(op, c, w);
    }
  }

  lemma CopyGrows(s: seq<Word>, mem: seq<Byte>, src: seq<Byte>)
    ensures var r := CopyOp(s, mem, src);
            r.Ok? ==> |mem| <= |r.value.1| && (|mem| <= MAX_MEM ==> |r.value.1| <= MAX_MEM)
  {
  }

  lemma MemoryOpGrows(op: Byte, env: Env, c: Ctx)
    requires IsMemoryOp(op)
    ensures var r := MemoryOp(op, env, c);
            r.Ok? ==> |c.mem| <= |r.value.1| && (|c.mem| <= MAX_MEM ==> |r.value.1| <= MAX_MEM)
  {
    hide CopyOp, PopMany, Push, WordOf, ToBE;
    CopyGrows(c.s, c.mem, c.input);
    CopyGrows(c.s, c.mem, c.code);
  }

  lemma WorldOpShape(op: Byte, c: Ctx, w: World)
    requires IsWorldOp(op) && c.pc < |c.code| && c.code[c.pc] == op
    ensures var o := ExecWorld(op, c, w);
            o.Next? ==> SameFrame(c, o.c) && PcAfter(c, o.c) && MemoryGrows(c, o.c)
  {
    hide CopyOp, GetAccount, ValidDestinations;
    var r := PopAddress(c.s);
    if op == EXTCODECOPY && r.Ok? {
      CopyGrows(r.value.1, c.mem, Lookup(GetAccount(w, r.value.0), r.value.0).code);
    }
  }

  /** How many operands a call or creation takes. */
  function OperandCount(op: Byte): nat {
    if op == CREATE then 3 else if op == DELEGATECALL then 6 else 7
  }

  /** The opcode at which a parent waits fixes who its child acts for. */
  predicate Lineage(op: Byte, p: Ctx, child: Ctx) {
    (op == CALL ==> child.caller == p.acc)
    && (op == CALLCODE ==> child.caller == p.acc && child.acc == p.acc)
    && (op == DELEGATECALL ==> child.caller == p.caller && child.acc == p.acc && child.callValue == p.callValue)
    && (op == CREATE ==> child.caller == p.acc && child.callValue == 0 && child.input == [])
  }

  /** The handler fits the opcode, and the window it may write lies inside the parent's memory. */
  predicate HandlerFits(op: Byte, p: Ctx, child: Ctx) {
    match child.handler
    case Top => false
    case CallRet(offOut, sizeOut) => IsCall(op) && offOut + sizeOut <= |p.mem|
    case CreateRet(addr) => op == CREATE && addr == child.acc
  }

  /** The parent as a call leaves it: operands popped, memory grown with zeros, nothing else. */
  predicate Waiting(op: Byte, c: Ctx, p: Ctx) {
    && p == c.(s := p.s, mem := p.mem)
    && |c.s| >= OperandCount(op) && p.s == c.s[OperandCount(op)..]
    && GrownFrom(c.mem, p.mem) && (|c.mem| <= MAX_MEM ==> |p.mem| <= MAX_MEM)
  }

  predicate GrownFrom(mem: seq<Byte>, g: seq<Byte>) {
    |mem| <= |g| && g[..|mem|] == mem && forall i :: |mem| <= i < |g| ==> g[i] == 0
  }

  /** A fresh context at the start of its program. */
  predicate Fresh(child: Ctx) {
    child.pc == 0 && child.pcChanged && child.s == [] && child.mem == []
  }

  lemma EnteredShape(env: Env, depth: nat, c: Ctx, w: World)
    requires c.pc < |c.code|
    ensures var o := Exec(env, depth, c, w); o.Entered? ==>
              var op := c.code[c.pc];
              && (IsCall(op) || op == CREATE) && depth < MAX_CALL_DEPTH
              && Waiting(op, c, o.c) && Lineage(op, c, o.child) && HandlerFits(op, o.c, o.child) && Fresh(o.child)
  {
    hide MemoryOp, StackOp, ReadOp, CopyOp, PayTo, CallOperands, CallWindows, CreateOperands, ValidDestinations;
    var op := c.code[c.pc];
    if op == CREATE {
      CreateOperandsShape(c);
    } else if IsCall(op) {
      CallOperandsShape(op, c.s);
      var r := CallOperands(op, c.s);
      if r.Ok? { CallWindowsShape(c.mem, r.value); }
    }
  }

  lemma CreateOperandsShape(c: Ctx)
    ensures var r := CreateOperands(c); r.Ok? ==>
              var (value, m, init, s) := r.value;
              && |c.s| >= 3 && s == c.s[3..] && value == c.s[0] && |init| <= MAX_MEM
              && GrownFrom(c.mem, m) && (|c.mem| <= MAX_MEM ==> |m| <= MAX_MEM)
  {
    if CreateOperands(c).Ok? {
      assert c.s[1..][1..] == c.s[2..] && c.s[2..][1..] == c.s[3..];
      PreparedGrows(c.mem, c.s[1], c.s[2]);
    }
  }

  lemma PreparedGrows(mem: seq<Byte>, offset: nat, size: nat)
    ensures var r := Prepare(mem, offset, size); r.Ok? ==>
              GrownFrom(mem, r.value) && (|mem| <= MAX_MEM ==> |r.value| <= MAX_MEM) && offset + size <= |r.value|
  {
  }

  lemma CallOperandsShape(op: Byte, s: seq<Word>)
    requires IsCall(op)
    ensures var r := CallOperands(op, s); r.Ok? ==>
              var k := OperandCount(op);
              && |s| >= k && r.value.s == s[k..] && r.value.addr == s[1] % TWO160
              && r.value.value == (if op == DELEGATECALL then 0 else s[2])
              && r.value.offOut == s[k - 2] && r.value.sizeOut == s[k - 1]
  {
    if CallOperands(op, s).Ok? {
      assert forall i {:trigger s[i..]} :: 0 <= i < |s| ==> s[i..][1..] == s[i + 1..];
    }
  }

  lemma GrownTwice(a: seq<Byte>, b: seq<Byte>, c: seq<Byte>)
    requires GrownFrom(a, b) && GrownFrom(b, c)
    ensures GrownFrom(a, c)
  {
    assert c[..|a|] == c[..|b|][..|a|];
    forall i | |a| <= i < |c| ensures c[i] == 0 {
      if i < |b| { assert c[i] == c[..|b|][i] == b[i]; }
    }
  }

  lemma CallWindowsShape(mem: seq<Byte>, a: CallArgs)
    ensures var r := CallWindows(mem, a); r.Ok? ==>
              GrownFrom(mem, r.value.0) && (|mem| <= MAX_MEM ==> |r.value.0| <= MAX_MEM)
              && a.offOut + a.sizeOut <= |r.value.0| && |r.value.1| <= MAX_MEM
  {
    hide Prepare;
    PreparedGrows(mem, a.offOut, a.sizeOut);
    var r := Prepare(mem, a.offOut, a.sizeOut);
    if r.Ok? {
      PreparedGrows(r.value, a.offIn, a.sizeIn);
      var r2 := Prepare(r.value, a.offIn, a.sizeIn);
      if r2.Ok? {
        GrownTwice(mem, r.value, r2.value);
        InputSize(r.value, a);
      }
    }
  }

  lemma InputSize(mem: seq<Byte>, a: CallArgs)
    ensures Prepare(mem, a.offIn, a.sizeIn).Ok? ==> a.sizeIn <= MAX_MEM
  {
  }

  // ----- One turn of the loop -----

  /** How a context ended, as far as its parent is concerned. */
  datatype Ending = ByReturn(output: seq<Byte>) | ByHalt | ByThrow

  /** The result word and memory a waiting parent gets from a child with handler `h`. */
  predicate Handed(p: Ctx, h: Handler, e: Ending, v: Word, mem: seq<Byte>) {
    match e
    case ByThrow => v == 0 && mem == p.mem
    case ByHalt => v == HaltWord(h) && mem == p.mem
    case ByReturn(output) =>
      match h
      case Top => false
      case CallRet(offOut, sizeOut) => v == 1 && CopyMem(p.mem, offOut, output, 0, sizeOut, 0) == Ok(mem)
      case CreateRet(addr) => v == addr && mem == p.mem
  }

  /** The three things a turn that keeps the loop going can do. */
  datatype Turn =
    | Onward(c: Ctx)
    | Enter(c: Ctx, child: Ctx)
    | Back(j: nat, e: Ending, v: Word, mem: seq<Byte>)

  /** The parent as it goes on: result word pushed, memory as handed over, one past the call. */
  function Resumed(p: Ctx, v: Word, mem: seq<Byte>): Ctx {
    StepPc(p.(s := [v] + p.s, mem := mem))
  }

  /** The contexts after a turn. `Back` ends the top context, or the top two when the halt handler
      of the first finds its parent's stack full and that parent is thrown out as well. */
  predicate TurnOf(m: Machine, o: Outcome, t: Turn, m1: Machine)
    requires m.ctxts != []
  {
    var n := |m.ctxts| - 1;
    match t
    case Onward(c) => o == Next(c, m1.w) && m1 == m.(ctxts := m.ctxts[..n] + [StepPc(c)], w := m1.w)
    case Enter(c, child) =>
      o == Entered(c, child, m1.w) && m1 == m.(ctxts := m.ctxts[..n] + [c, StepPc(child)], w := m1.w)
    case Back(j, e, v, mem) =>
      && j < n && j + 2 >= n && |m.ctxts[j].s| != MAX_STACK
      && Handed(m.ctxts[j], m.ctxts[j + 1].handler, e, v, mem)
      && EndedBy(m, o, j, e)
      && m1 == m.(ctxts := m.ctxts[..j] + [Resumed(m.ctxts[j], v, mem)], w := WorldAfter(m.ctxts[n].handler, o, e))
  }

  /** Which outcome of the top context counts as which ending for the context `j` that goes on. */
  predicate EndedBy(m: Machine, o: Outcome, j: nat, e: Ending)
    requires m.ctxts != [] && j < |m.ctxts| - 1
  {
    var h := m.ctxts[|m.ctxts| - 1].handler;
    if j + 2 < |m.ctxts| then e.ByThrow? && o.Halted? && |m.ctxts[j + 1].s| == MAX_STACK
    else
      match e
      case ByReturn(output) => o.Returned? && o.output == output
      case ByHalt => o.Halted?
      case ByThrow => o.Threw? || (o.Returned? && !Accepts(m.ctxts[j], h, o.output))
  }

  /** The return data fits the window the parent asked for. */
  predicate Accepts(p: Ctx, h: Handler, output: seq<Byte>) {
    h.CallRet? ==> CopyMem(p.mem, h.offOut, output, 0, h.sizeOut, 0).Ok?
  }

  /** Only a returning creation changes the world after the opcode: it stores the code. */
  function WorldAfter(h: Handler, o: Outcome, e: Ending): World
    requires o.Threw? || o.Returned? || o.Halted?
  {
    if e.ByReturn? && h.CreateRet? then SetCode(o.w, h.addr, e.output) else o.w
  }

  /** Every turn that keeps the loop going is one of the three. */
  lemma StepTurn(env: Env, m: Machine) returns (t: Turn)
    requires m.ctxts != [] && Nested(m.ctxts) && Step(env, m).Running?
    ensures m.ctxts[|m.ctxts| - 1].pc < |m.ctxts[|m.ctxts| - 1].code|
    ensures TurnOf(m, Exec(env, |m.ctxts|, m.ctxts[|m.ctxts| - 1], m.w), t, Step(env, m).m)
  {
    hide Exec, Deliver, FallOff, Nested, TurnOf;
    var c := m.ctxts[|m.ctxts| - 1];
    FallOffEnds(m);
    ExecKeepsHandler(env, |m.ctxts|, c, m.w);
    t := DeliverTurn(m, Exec(env, |m.ctxts|, c, m.w));
  }

  lemma DeliverTurn(m: Machine, o: Outcome) returns (t: Turn)
    requires m.ctxts != [] && Nested(m.ctxts)
    requires o.Next? ==> o.c.handler == m.ctxts[|m.ctxts| - 1].handler
    requires o.Entered? ==> o.c.handler == m.ctxts[|m.ctxts| - 1].handler && !o.child.handler.Top?
    requires Deliver(m, o).Running?
    ensures TurnOf(m, o, t, Deliver(m, o).m)
  {
    hide OnException, OnReturn, OnHalt, Nested, Handed, Resumed, StepPc, SetCode;
    var n := |m.ctxts| - 1;
    NestedSplit(m.ctxts);
    match o
    case Next(c, w) =>
      t := Onward(c);
      assert (m.ctxts[..n] + [c])[..n] == m.ctxts[..n];
    case Threw(e, w) =>
      t := ExceptionTurn(m.(ctxts := m.ctxts[..n], w := w), m.ctxts[n].handler, e);
      assert m.ctxts[..n][..t.j] == m.ctxts[..t.j];
    case Returned(output, w) =>
      t := ReturnTurn(m.(ctxts := m.ctxts[..n], w := w), m.ctxts[n].handler, output);
      assert m.ctxts[..n][..t.j] == m.ctxts[..t.j];
    case Halted(w) =>
      t := HaltTurn(m.(ctxts := m.ctxts[..n], w := w), m.ctxts[n].handler);
      assert m.ctxts[..n][..t.j] == m.ctxts[..t.j];
    case Entered(c, child, w) =>
      t := Enter(c, child);
      assert (m.ctxts[..n] + [c, child])[..n + 1] == m.ctxts[..n] + [c];
  }

  lemma FallOffEnds(m: Machine)
    requires m.ctxts != [] && Nested(m.ctxts)
    ensures !FallOff(m).Running?
  {
  }

  /** A result pushed into the top of `m` and the loop's step on it. */
  lemma PushedAndResumed(m: Machine, v: Word, mem: seq<Byte>)
    requires m.ctxts != []
    ensures var n := |m.ctxts| - 1;
            var m0 := m.(ctxts := m.ctxts[..n] + [m.ctxts[n].(mem := mem)]);
            var r := PushResult(m0, v);
            && (r.Ok? <==> |m.ctxts[n].s| != MAX_STACK)
            && (r.Ok? ==> Resume(r.value) == Running(m.(ctxts := m.ctxts[..n] + [Resumed(m.ctxts[n], v, mem)])))
  {
    var n := |m.ctxts| - 1;
    var m0 := m.(ctxts := m.ctxts[..n] + [m.ctxts[n].(mem := mem)]);
    assert m0.ctxts[..n] == m.ctxts[..n];
    var r := PushResult(m0, v);
    if r.Ok? { assert r.value.ctxts[..n] == m.ctxts[..n]; }
  }

  lemma SameMemory(m: Machine)
    requires m.ctxts != []
    ensures var n := |m.ctxts| - 1; m == m.(ctxts := m.ctxts[..n] + [m.ctxts[n].(mem := m.ctxts[n].mem)])
  {
  }

  lemma ExceptionTurn(m: Machine, h: Handler, e: ErrorType) returns (t: Turn)
    requires Popped(m, h) && OnException(m, h, e).Running?
    ensures !h.Top? && t.Back? && t.j + 1 == |m.ctxts| && t.e == ByThrow
    ensures |m.ctxts[t.j].s| != MAX_STACK && Handed(m.ctxts[t.j], h, t.e, t.v, t.mem)
    ensures OnException(m, h, e) == Running(m.(ctxts := m.ctxts[..t.j] + [Resumed(m.ctxts[t.j], t.v, t.mem)]))
  {
    hide PushResult, Resumed;
    if h.Top? { ResumeEmpty(m.(result := m.result.(er := ExitThrew, ex := e))); }
    var n := |m.ctxts| - 1;
    t := Back(n, ByThrow, 0, m.ctxts[n].mem);
    PushedAndResumed(m, 0, m.ctxts[n].mem);
    SameMemory(m);
  }

  lemma HaltTurn(m: Machine, h: Handler) returns (t: Turn)
    requires Popped(m, h) && OnHalt(m, h).Running?
    ensures !h.Top? && t.Back? && t.j < |m.ctxts| <= t.j + 2 && |m.ctxts[t.j].s| != MAX_STACK
    ensures OnHalt(m, h) == Running(m.(ctxts := m.ctxts[..t.j] + [Resumed(m.ctxts[t.j], t.v, t.mem)]))
    ensures t.j + 1 == |m.ctxts| ==> t.e == ByHalt && Handed(m.ctxts[t.j], h, t.e, t.v, t.mem)
    ensures t.j + 2 == |m.ctxts| ==>
              && t.e == ByThrow && |m.ctxts[t.j + 1].s| == MAX_STACK
              && Handed(m.ctxts[t.j], m.ctxts[t.j + 1].handler, t.e, t.v, t.mem)
  {
    hide PushResult, Resumed, OnException, Nested;
    if h.Top? { ResumeEmpty(m.(result := m.result.(er := ExitHalted))); }
    var n := |m.ctxts| - 1;
    PushedAndResumed(m, HaltWord(h), m.ctxts[n].mem);
    SameMemory(m);
    match PushResult(m, HaltWord(h))
    case Ok(_) =>
      t := Back(n, ByHalt, HaltWord(h), m.ctxts[n].mem);
    case Throw(e) =>
      NestedSplit(m.ctxts);
      var below := m.(ctxts := m.ctxts[..n]);
      t := ExceptionTurn(below, m.ctxts[n].handler, e);
      assert below.ctxts[..t.j] == m.ctxts[..t.j];
  }

  lemma ReturnTurn(m: Machine, h: Handler, output: seq<Byte>) returns (t: Turn)
    requires Popped(m, h) && OnReturn(m, h, output).Running?
    ensures !h.Top? && t.Back? && t.j + 1 == |m.ctxts| && |m.ctxts[t.j].s| != MAX_STACK
    ensures Handed(m.ctxts[t.j], h, t.e, t.v, t.mem)
    ensures t.e == ByReturn(output)
            || (t.e == ByThrow && !Accepts(m.ctxts[t.j], h, output))
    ensures var w := if t.e.ByReturn? && h.CreateRet? then SetCode(m.w, h.addr, output) else m.w;
            OnReturn(m, h, output)
            == Running(m.(w := w, ctxts := m.ctxts[..t.j] + [Resumed(m.ctxts[t.j], t.v, t.mem)]))
  {
    hide PushResult, Resumed, OnException, CopyMem, Resume;
    if h.Top? { ResumeEmpty(m.(result := m.result.(er := ExitReturned, output := output))); }
    var n := |m.ctxts| - 1;
    match h
    case CallRet(offOut, sizeOut) =>
      match CopyMem(m.ctxts[n].mem, offOut, output, 0, sizeOut, 0) {
        case Throw(e) =>
          t := ExceptionTurn(m, h, e);
        case Ok(mem) =>
          PushedAndResumed(m, 1, mem);
          var m1 := m.(ctxts := m.ctxts[..n] + [m.ctxts[n].(mem := mem)]);
          if PushResult(m1, 1).Throw? { FullParentEscapes(m1, h, PushResult(m1, 1).error); }
          t := Back(n, ByReturn(output), 1, mem);
      }
    case CreateRet(addr) =>
      var m1 := m.(w := SetCode(m.w, addr, output));
      PushedAndResumed(m1, addr, m.ctxts[n].mem);
      SameMemory(m1);
      if PushResult(m1, addr).Throw? { FullParentEscapes(m1, h, PushResult(m1, addr).error); }
      t := Back(n, ByReturn(output), addr, m.ctxts[n].mem);
  }

  /** A parent too full for the return value is too full for the exception handler's zero as well. */
  lemma FullParentEscapes(m: Machine, h: Handler, e: ErrorType)
    requires Popped(m, h) && !h.Top? && |m.ctxts[|m.ctxts| - 1].s| == MAX_STACK
    ensures OnException(m, h, e) == Escaped(m.w)
  {
  }
}
