/** Places where the code does what one might not expect: for each the exact condition, and a run that
    gets there. */
module Oddities {
  import opened Words
  import opened Bytecode
  import opened Alu
  import opened Evm
  import opened EvmShape
  import opened EvmInvariant
  import opened Balance
  import opened Samples

  // ----- Exceptions that leave the run -----

  predicate Full(m: Machine, i: nat)
    requires i < |m.ctxts|
  {
    |m.ctxts[i].s| == MAX_STACK
  }

  /** What makes the next turn leave `run`, told from the state and the outcome of the opcode. */
  predicate Leaves(env: Env, m: Machine)
    requires m.ctxts != []
  {
    var n := |m.ctxts| - 1;
    var c := m.ctxts[n];
    if c.pc >= |c.code| then n >= 1 && Full(m, n - 1)
    else
      var o := Exec(env, n + 1, c, m.w);
      if o.Halted? then n >= 2 && Full(m, n - 1) && Full(m, n - 2)
      else if o.Threw? || o.Returned? then n >= 1 && Full(m, n - 1)
      else OffsetOverflows(c)
  }

  /** CALLDATALOAD with an offset to which 32 cannot be added. */
  predicate OffsetOverflows(c: Ctx)
    requires c.pc < |c.code|
  {
    c.code[c.pc] == CALLDATALOAD && c.s != [] && TWO64 - 32 <= c.s[0] < TWO64
  }

  lemma CrashesExactly(env: Env, depth: nat, c: Ctx, w: World)
    requires c.pc < |c.code|
    ensures Exec(env, depth, c, w).Crashed? <==> OffsetOverflows(c)
    ensures OffsetOverflows(c) ==> Exec(env, depth, c, w) == Crashed(w)
  {
    hide MemoryOp, StackOp, PayTo, CallOperands, CallWindows, CreateOperands, ValidDestinations, CopyOp, InputWord;
  }

  /** An exception leaves `run` exactly when a handler finds no room in its parent and so does the
      handler that is run instead, outside the try block at the first, or when CALLDATALOAD overflows. */
  lemma EscapesExactly(env: Env, m: Machine)
    requires Inv(m)
    ensures m.ctxts != [] && Nested(m.ctxts)
    ensures Step(env, m).Escaped? <==> Leaves(env, m)
  {
    hide Exec, Inv, Deliver, Nested;
    InvParts(m);
    var n := |m.ctxts| - 1;
    var c := m.ctxts[n];
    if c.pc < |c.code| {
      var o := Exec(env, n + 1, c, m.w);
      ExecKeepsHandler(env, n + 1, c, m.w);
      CrashesExactly(env, n + 1, c, m.w);
      if n >= 1 && o.Returned? && c.handler.CallRet? { ReturnWindowFits(m, n - 1, o.output); }
      DeliverEscapes(m, o);
    } else {
      FallOffEscapes(m);
    }
  }

  lemma FallOffEscapes(m: Machine)
    requires m.ctxts != [] && Nested(m.ctxts)
    ensures var n := |m.ctxts| - 1; FallOff(m).Escaped? <==> n >= 1 && Full(m, n - 1)
  {
  }

  lemma DeliverEscapes(m: Machine, o: Outcome)
    requires m.ctxts != [] && Nested(m.ctxts)
    requires o.Next? ==> o.c.handler == m.ctxts[|m.ctxts| - 1].handler
    requires o.Entered? ==> o.c.handler == m.ctxts[|m.ctxts| - 1].handler && !o.child.handler.Top?
    requires var n := |m.ctxts| - 1; var h := m.ctxts[n].handler;
             n >= 1 && o.Returned? && h.CallRet? ==>
               CopyMem(m.ctxts[n - 1].mem, h.offOut, o.output, 0, h.sizeOut, 0).Ok?
    ensures var n := |m.ctxts| - 1;
            Deliver(m, o).Escaped? <==>
              if o.Halted? then n >= 2 && Full(m, n - 1) && Full(m, n - 2)
              else if o.Threw? || o.Returned? then n >= 1 && Full(m, n - 1)
              else o.Crashed?
  {
    hide OnReturn, OnException, OnHalt, Nested, CopyMem;
    var n := |m.ctxts| - 1;
    var h := m.ctxts[n].handler;
    NestedSplit(m.ctxts);
    match o
    case Threw(e, w) => ThrowEscapes(m.(ctxts := m.ctxts[..n], w := w), h, e);
    case Returned(output, w) => ReturnEscapes(m.(ctxts := m.ctxts[..n], w := w), h, output);
    case Halted(w) => HaltEscapes(m.(ctxts := m.ctxts[..n], w := w), h);
    case _ =>
  }

  lemma ThrowEscapes(m: Machine, h: Handler, e: ErrorType)
    requires Popped(m, h)
    ensures OnException(m, h, e).Escaped? <==> m.ctxts != [] && Full(m, |m.ctxts| - 1)
  {
    hide Nested;
  }

  lemma ReturnEscapes(m: Machine, h: Handler, output: seq<Byte>)
    requires Popped(m, h)
    requires h.CallRet? ==> CopyMem(m.ctxts[|m.ctxts| - 1].mem, h.offOut, output, 0, h.sizeOut, 0).Ok?
    ensures OnReturn(m, h, output).Escaped? <==> m.ctxts != [] && Full(m, |m.ctxts| - 1)
  {
    hide Nested, CopyMem;
  }

  lemma HaltEscapes(m: Machine, h: Handler)
    requires Popped(m, h)
    ensures var n := |m.ctxts|; OnHalt(m, h).Escaped? <==> n >= 2 && Full(m, n - 1) && Full(m, n - 2)
  {
    hide OnException;
    if !h.Top? {
      NestedSplit(m.ctxts);
      var n := |m.ctxts| - 1;
      ThrowEscapes(m.(ctxts := m.ctxts[..n]), m.ctxts[n].handler, OutOfBounds);
    }
  }

  // ----- Stacks past the limit -----

  /** From a stack within the limit only DUP gets past it, and only from a full one. */
  lemma PastLimit(env: Env, depth: nat, c: Ctx, w: World)
    requires c.pc < |c.code| && |c.s| <= MAX_STACK
    ensures var o := Exec(env, depth, c, w);
            o.Next? ==> (|o.c.s| > MAX_STACK <==> |c.s| == MAX_STACK && DUP1 <= c.code[c.pc] <= DUP16)
  {
    hide MemoryOp, StackOp, ExecPush, ExecJump, ExecWorld, ExecReturn, ExecSelfdestruct, ExecCreate, ExecCall, ExecLoad;
    var op := c.code[c.pc];
    if IsMemoryOp(op) { MemoryStack(op, env, c); }
    StackSize(op, env, c, w);
    CounterStack(op, c, w);
    if IsWorldOp(op) { WorldStack(op, c, w); }
    NeverNext(env, depth, c, w);
    if IsCall(op) { CallStack(op, depth, c, w); }
  }

  lemma CounterStack(op: Byte, c: Ctx, w: World)
    requires c.pc < |c.code| && |c.s| <= MAX_STACK
    ensures var o := ExecPush(c, w); o.Next? ==> |o.c.s| <= MAX_STACK
    ensures var o := ExecJump(op, c, w); o.Next? ==> |o.c.s| <= MAX_STACK
    ensures var o := ExecLoad(c, w); o.Next? ==> |o.c.s| <= MAX_STACK
  {
    hide FromBE, ValidDestinations, InputWord;
  }

  lemma WorldStack(op: Byte, c: Ctx, w: World)
    requires IsWorldOp(op) && |c.s| <= MAX_STACK
    ensures var o := ExecWorld(op, c, w); o.Next? ==> |o.c.s| <= MAX_STACK
  {
    hide CopyOp, GetAccount;
    if op == EXTCODECOPY && PopAddress(c.s).Ok? {
      var (a, s) := PopAddress(c.s).value;
      CopyStack(s, c.mem, Lookup(GetAccount(w, a), a).code);
    }
  }

  lemma NeverNext(env: Env, depth: nat, c: Ctx, w: World)
    ensures !ExecReturn(c, w).Next? && !ExecSelfdestruct(c, w).Next? && !ExecCreate(env, depth, c, w).Next?
  {
    hide PayTo, GetAccount, CreateOperands, ReturnData;
  }

  /** A call goes on in the same context only when there is no code to run, with one word for seven. */
  lemma CallStack(op: Byte, depth: nat, c: Ctx, w: World)
    requires IsCall(op) && |c.s| <= MAX_STACK
    ensures var o := ExecCall(op, depth, c, w); o.Next? ==> |o.c.s| <= MAX_STACK
  {
    hide PayTo, GetAccount, CallWindows, CallOperands;
    CallOperandsShape(op, c.s);
  }

  /** An opcode that works on the stack leaves room, or is a DUP. */
  lemma StackSize(op: Byte, env: Env, c: Ctx, w: World)
    requires |c.s| <= MAX_STACK
    ensures var r := StackOp(op, env, c, w); r.Ok? ==>
              if DUP1 <= op <= DUP16 then |r.value| == |c.s| + 1 else |r.value| <= MAX_STACK
  {
    hide ReadOp, Binary, AddMod, MulMod, Power, ByteAt;
    ReadSize(op, env, c, w);
  }

  lemma ReadSize(op: Byte, env: Env, c: Ctx, w: World)
    requires |c.s| <= MAX_STACK
    ensures var r := ReadOp(op, env, c, w); r.Ok? ==> |r.value| <= MAX_STACK
  {
  }

  lemma CopyStack(s: seq<Word>, mem: seq<Byte>, src: seq<Byte>)
    ensures var r := CopyOp(s, mem, src); r.Ok? ==> |r.value.0| <= |s|
  {
    hide CopyMem;
  }

  lemma MemoryStack(op: Byte, env: Env, c: Ctx)
    requires IsMemoryOp(op)
    ensures var r := MemoryOp(op, env, c); r.Ok? ==> |r.value.0| <= |c.s|
  {
    hide CopyOp, Prepare, ToBE, WordOf;
    CopyStack(c.s, c.mem, c.input);
    CopyStack(c.s, c.mem, c.code);
    if LOG0 <= op <= LOG4 && Pop64(c.s).Ok? && Pop64(Pop64(c.s).value.1).Ok? {
      PopManyShrinks(Pop64(Pop64(c.s).value.1).value.1, op - LOG0);
    }
  }

  lemma {:induction false} PopManyShrinks(s: seq<Word>, n: nat)
    ensures PopMany(s, n).Ok? ==> |PopMany(s, n).value| <= |s|
    decreases n
  {
    if n > 0 && s != [] { PopManyShrinks(s[1..], n - 1); }
  }

  // ----- The first instruction -----

  /** After the first turn of a run the counter is still at the first instruction, which is then
      dispatched once more, exactly when that instruction is not a PUSH. */
  lemma FirstTwice(env: Env, caller: Word, callee: Word, input: seq<Byte>, callValue: Word, w: World)
    requires Lookup(w, callee).code != []
    ensures var st := Step(env, Start(caller, callee, input, callValue, w));
            st.Running? ==>
              && |st.m.ctxts| == 1 && st.m.ctxts[0].code == Lookup(w, callee).code
              && (st.m.ctxts[0].pc == 0 <==> !IsPush(Lookup(w, callee).code[0]))
  {
    hide Step, Exec, TurnOf, Waiting;
    var m := Start(caller, callee, input, callValue, w);
    var c, o := m.ctxts[0], Exec(env, 1, m.ctxts[0], w);
    if Step(env, m).Running? {
      var t := StepTurn(env, m);
      NextShape(env, 1, c, w);
      EnteredShape(env, 1, c, w);
      if c.code[0] == JUMP || c.code[0] == JUMPI { NoJumpYet(env, c, w); }
      OnlyTurn(m, o, t, Step(env, m).m);
    }
  }

  lemma NoJumpYet(env: Env, c: Ctx, w: World)
    requires c.pc < |c.code| && c.s == [] && (c.code[c.pc] == JUMP || c.code[c.pc] == JUMPI)
    ensures !Exec(env, 1, c, w).Next?
  {
  }

  /** A run that goes on after its first turn goes on in its only context. */
  lemma OnlyTurn(m: Machine, o: Outcome, t: Turn, m1: Machine)
    requires |m.ctxts| == 1 && TurnOf(m, o, t, m1) && m.ctxts[0].s == [] && m.ctxts[0].pc < |m.ctxts[0].code|
    requires var c := m.ctxts[0]; o.Entered? ==> Waiting(c.code[c.pc], c, o.c)
    ensures o.Next? && m1.ctxts == [StepPc(o.c)]
  {
    assert m.ctxts[..0] == [];
  }

  // ----- Runs that get there -----

  /** Pushes a 64-bit offset and loads input from it. */
  function LoadCode(offset: U64): seq<Byte> {
    [PUSH1 + 7] + ToBE(offset, 8) + [CALLDATALOAD]
  }

  /** The second turn of this program leaves `run` exactly for the offsets near 2^64. */
  lemma LoadEscapes(env: Env, caller: Word, callee: Word, input: seq<Byte>, callValue: Word, w: World, offset: U64)
    requires Lookup(w, callee).code == LoadCode(offset)
    ensures Run(env, Start(caller, callee, input, callValue, w), 2) == Escaped(w) <==> offset >= TWO64 - 32
  {
    hide Step, Exec, LoadCode;
    var m := Start(caller, callee, input, callValue, w);
    var c := m.ctxts[0];
    LoadCodeAt(offset);
    PushTurn(env, m, c, 8, offset);
    assert [offset] + [] == [offset];
    var c1 := At(c, 9, [offset], []);
    var m1 := With(m, c1);
    OneTurn(env, m);
    OneTurn(env, m1);
    RunThen(env, m, 1, m1, 1);
    CrashesExactly(env, 1, c1, w);
    CrashStep(env, m1);
  }

  lemma LoadCodeAt(offset: U64)
    ensures var code := LoadCode(offset);
            |code| == 10 && code[0] == PUSH1 + 7 && FromBE(code[1..9]) == offset && code[9] == CALLDATALOAD
  {
    hide ToBE, FromBE;
    Power256Bytes(32);
    FromToBE(offset, 8);
    assert LoadCode(offset)[1..9] == ToBE(offset, 8);
  }

  /** A single context escapes only by crashing. */
  lemma CrashStep(env: Env, m: Machine)
    requires |m.ctxts| == 1 && Nested(m.ctxts) && m.ctxts[0].pc < |m.ctxts[0].code|
    ensures Step(env, m) == Escaped(m.w) <==> OffsetOverflows(m.ctxts[0])
  {
    hide Exec;
    CrashesExactly(env, 1, m.ctxts[0], m.w);
    assert m.ctxts[..0] == [];
  }

  function ZeroWords(n: nat): (s: seq<Word>)
    ensures |s| == n
  {
    seq(n, _ => 0)
  }

  lemma DupTurn(env: Env, m: Machine, c: Ctx, n: nat)
    requires Solo(m, c) && c.pc < |c.code| && c.code[c.pc] == DUP1 && !c.pcChanged && n > 0 && c.s == ZeroWords(n)
    ensures Step(env, m) == Running(With(m, At(c, c.pc + 1, ZeroWords(n + 1), c.mem)))
  {
    assert [c.s[0]] + c.s == ZeroWords(n + 1);
    NextTurn(env, m, c, c.(s := ZeroWords(n + 1)));
  }

  /** DUPs go on past the limit of 1024 words. */
  lemma {:induction false} DupRun(env: Env, m: Machine, c: Ctx, n: nat, k: nat)
    requires Solo(m, c) && !c.pcChanged && n > 0 && c.s == ZeroWords(n) && c.pc + k <= |c.code|
    requires forall i :: c.pc <= i < c.pc + k ==> c.code[i] == DUP1
    ensures Nested(m.ctxts) && Run(env, m, k) == Running(With(m, At(c, c.pc + k, ZeroWords(n + k), c.mem)))
    decreases k
  {
    hide Step, ZeroWords;
    if k == 0 {
      assert With(m, At(c, c.pc, c.s, c.mem)) == m;
    } else {
      var c1 := At(c, c.pc + 1, ZeroWords(n + 1), c.mem);
      DupTurn(env, m, c, n);
      DupRun(env, With(m, c1), c1, n + 1, k - 1);
    }
  }

  /** One push and so many DUPs that a DELEGATECALL leaves a full stack. */
  const DUPS: nat := MAX_STACK + 5

  function FullStackCode(): seq<Byte> {
    [PUSH1, 0] + seq(DUPS, _ => DUP1) + [DELEGATECALL]
  }

  const UNASSIGNED: Byte := 0xfe

  /** The program with 1030 words on its stack. */
  lemma StackGrows(env: Env, caller: Word, callee: Word, input: seq<Byte>, callValue: Word, w: World)
    requires Lookup(w, callee).code == FullStackCode()
    ensures var m := Start(caller, callee, input, callValue, w);
            Run(env, m, DUPS + 1) == Running(With(m, At(m.ctxts[0], DUPS + 2, ZeroWords(DUPS + 1), [])))
  {
    hide Step;
    var m := Start(caller, callee, input, callValue, w);
    var c := m.ctxts[0];
    ByteValue(c.code, 1);
    PushTurn(env, m, c, 1, 0);
    assert [0] + [] == ZeroWords(1);
    var c1 := At(c, 2, ZeroWords(1), []);
    OneTurn(env, m);
    DupRun(env, With(m, c1), c1, 1, DUPS);
    RunThen(env, m, 1, With(m, c1), DUPS);
  }

  /** A child that throws under a full parent: its exception handler throws as well, and `run` is left. */
  lemma HandlerEscapes(env: Env, caller: Word, callee: Word, input: seq<Byte>, callValue: Word, w: World)
    requires Lookup(w, callee).code == FullStackCode() && Lookup(w, 0).code == [UNASSIGNED] && callee in w.accounts
    ensures Run(env, Start(caller, callee, input, callValue, w), DUPS + 3).Escaped?
  {
    hide Step, Exec, Inv, FullStackCode;
    var m := Start(caller, callee, input, callValue, w);
    StackGrows(env, caller, callee, input, callValue, w);
    var c := At(m.ctxts[0], DUPS + 2, ZeroWords(DUPS + 1), []);
    var m1 := With(m, c);
    ReachableInv(env, caller, callee, input, callValue, w, DUPS + 1);
    FullStackCall(env, m1, c);
    var m2 := Step(env, m1).m;
    InvParts(m1);
    StepKeepsInv(env, m1);
    EscapesExactly(env, m2);
    OneTurn(env, m1);
    OneTurn(env, m2);
    RunThen(env, m1, 1, m2, 1);
    RunThen(env, m, DUPS + 1, m1, 2);
  }

  lemma FullStackCall(env: Env, m: Machine, c: Ctx)
    requires Solo(m, c) && c.code == FullStackCode() && c.pc == DUPS + 2 && c.s == ZeroWords(DUPS + 1) && c.mem == []
    requires Lookup(m.w, 0).code == [UNASSIGNED] && c.acc in m.w.accounts
    ensures Nested(m.ctxts) && Step(env, m).Running? && Leaves(env, Step(env, m).m)
  {
    hide Step, Exec, FullStackCode;
    FullStackOutcome(env, c, m.w);
    var o := Exec(env, 1, c, m.w);
    EnterStep(env, m, c, o.c, o.child, o.w);
    ThrowsAtOnce(env, StepPc(o.child), o.w);
  }

  lemma FullStackOutcome(env: Env, c: Ctx, w: World)
    requires c.code == FullStackCode() && c.pc == DUPS + 2 && c.s == ZeroWords(DUPS + 1) && c.mem == []
    requires Lookup(w, 0).code == [UNASSIGNED] && c.acc in w.accounts
    ensures c.pc < |c.code|
    ensures var o := Exec(env, 1, c, w);
            o.Entered? && |o.c.s| == MAX_STACK && o.child.code == [UNASSIGNED] && Fresh(o.child)
            && o.c.handler == c.handler && !o.child.handler.Top?
  {
    assert c.code[c.pc] == DELEGATECALL;
    FullStackOperands(c.s);
    hide CallOperands;
    var a := CallOperands(DELEGATECALL, c.s).value;
    FreeCall(w, c.acc);
    hide PayTo;
    assert Grow([], 0) == [];
  }

  lemma FullStackOperands(s: seq<Word>)
    requires s == ZeroWords(DUPS + 1)
    ensures CallOperands(DELEGATECALL, s) == Ok(CallArgs(0, 0, 0, 0, 0, 0, ZeroWords(MAX_STACK)))
  {
    hide ZeroWords;
    ZeroTail(DUPS + 1);
    ZeroTail(DUPS);
    ZeroTail(DUPS - 1);
    ZeroTail(DUPS - 2);
    ZeroTail(DUPS - 3);
    ZeroTail(DUPS - 4);
  }

  lemma ZeroTail(n: nat)
    requires n > 0
    ensures ZeroWords(n)[0] == 0 && ZeroWords(n)[1..] == ZeroWords(n - 1)
  {
  }

  /** Paying nothing changes no code. */
  lemma FreeCall(w: World, from: Word)
    requires Lookup(w, 0).code == [UNASSIGNED]
    ensures GetAccount(w, 0) == w
    ensures var r := PayTo(w, from, 0, 0); r.Ok? && Lookup(r.value, 0).code == [UNASSIGNED]
  {
  }

  lemma EnterStep(env: Env, m: Machine, c: Ctx, c1: Ctx, child: Ctx, w: World)
    requires Solo(m, c) && c.pc < |c.code| && Exec(env, 1, c, m.w) == Entered(c1, child, w)
    requires c1.handler == c.handler && !child.handler.Top?
    ensures Nested(m.ctxts) && Step(env, m) == Running(m.(ctxts := [c1, StepPc(child)], w := w))
  {
    hide Exec;
    assert [c][..0] == [] && [c1, child][..1] == [c1];
  }

  lemma ThrowsAtOnce(env: Env, c: Ctx, w: World)
    requires c.pc == 0 && c.code == [UNASSIGNED]
    ensures Exec(env, 2, c, w) == Threw(IllegalInstruction, w)
  {
  }

  // ----- Money from nothing -----

  /** An account that destroys itself in its own favour doubles its balance, if that fits; the sum of all
      balances has grown by it until the clean-up removes the account. */
  lemma SelfdestructMints(env: Env, caller: Word, callee: Word, input: seq<Byte>, callValue: Word, w: World)
    requires Lookup(w, callee).code == [ADDRESS, SELFDESTRUCT] && callee in w.accounts && callee < TWO160
    ensures var st := Run(env, Start(caller, callee, input, callValue, w), 3);
            var b := Lookup(w, callee).balance;
            st.Finished? && WorldTotal(st.m.w) == WorldTotal(w) + (if 2 * b < TWO256 then b else 0)
  {
    hide Step, Exec, WorldTotal;
    var m := Start(caller, callee, input, callValue, w);
    var c := m.ctxts[0];
    AddressTurn(env, m, c);
    var c1 := c.(s := [callee], pcChanged := false);
    AddressTurn(env, With(m, c1), c1);
    var c2 := At(c, 1, [callee, callee], []);
    assert [callee] + [] == [callee] && [callee] + [callee] == [callee, callee];
    OneTurn(env, m);
    OneTurn(env, With(m, c1));
    RunThen(env, m, 1, With(m, c1), 1);
    RunThen(env, m, 2, With(m, c2), 1);
    OneTurn(env, With(m, c2));
    StepBalance(env, With(m, c2));
    OwnRecipient(env, With(m, c2), c2);
  }

  lemma AddressTurn(env: Env, m: Machine, c: Ctx)
    requires Solo(m, c) && c.pc < |c.code| && c.code[c.pc] == ADDRESS && |c.s| < MAX_STACK
    ensures Nested(m.ctxts) && Step(env, m) == Running(With(m, StepPc(c.(s := [c.acc] + c.s))))
  {
    NextTurn(env, m, c, c.(s := [c.acc] + c.s));
  }

  lemma OwnRecipient(env: Env, m: Machine, c: Ctx)
    requires Solo(m, c) && c.pc < |c.code| && c.code[c.pc] == SELFDESTRUCT && c.s != [] && c.s[0] == c.acc
    requires c.acc < TWO160 && c.acc in m.w.accounts
    ensures Nested(m.ctxts) && Step(env, m).Finished?
    ensures var b := Lookup(m.w, c.acc).balance; TurnMinted(env, m) == if 2 * b < TWO256 then b else 0
  {
    hide SelfPaid;
    PaidToSelf(m.w, c.acc);
    assert [c][..0] == [];
  }

  lemma PaidToSelf(w: World, a: Word)
    requires a in w.accounts
    ensures GetAccount(w, a) == w
    ensures var b := Lookup(w, a).balance; SelfPaid(w, a, a, b) == if 2 * b < TWO256 then b else 0
  {
  }
}
