/** The interpreter object of src/processor.cpp: its stack of contexts, the handlers that write into
    parents, calls and creations, and the run loop. Its view as a value is a machine of the module Evm,
    and every turn of the loop is one step of that machine. */
module Processor {
  import opened Words
  import opened Bytecode
  import opened Alu
  import opened Evm
  import opened State
  import opened Execution
  import opened Operations
  import opened Instructions

  class Transaction {
    var selfdestructList: seq<Word>

    constructor ()
      ensures selfdestructList == []
    {
      selfdestructList := [];
    }
  }

  // ----- Views of a stack of contexts -----

  ghost function Parts(cs: seq<Context>): (r: set<object>)
    ensures forall i :: 0 <= i < |cs| ==> cs[i] in r && cs[i].s in r
    ensures forall o :: o in r ==> o is Context || o is Stack
  {
    (set i | 0 <= i < |cs| :: cs[i] as object) + (set i | 0 <= i < |cs| :: cs[i].s as object)
  }

  ghost function Views(cs: seq<Context>): (r: seq<Ctx>)
    reads Parts(cs)
    ensures |r| == |cs| && forall i :: 0 <= i < |cs| ==> r[i] == cs[i].View()
  {
    seq(|cs|, i requires 0 <= i < |cs| reads Parts(cs) => cs[i].View())
  }

  /** No two contexts share an operand stack. */
  ghost predicate Apart(cs: seq<Context>) {
    forall i, j :: 0 <= i < j < |cs| ==> cs[i] != cs[j] && cs[i].s != cs[j].s
  }

  /** Each context knows its own jump destinations, its account in the world and the parent its
      handlers write into. */
  ghost predicate Placed(cs: seq<Context>, accounts: map<Word, SimpleAccount>, i: nat)
    requires i < |cs|
  {
    var c := cs[i];
    && c.Valid()
    && c.acc.address in accounts && accounts[c.acc.address] == c.acc
    && c.parent == (if i == 0 then null else cs[i - 1])
    && (c.handler.Top? <==> i == 0)
    && (c.handler.CallRet? ==> c.handler.offOut < TWO64 && c.handler.sizeOut < TWO64)
    && (c.handler.CreateRet? ==> c.handler.addr == c.acc.address)
  }

  ghost predicate AllPlaced(cs: seq<Context>, accounts: map<Word, SimpleAccount>) {
    forall i :: 0 <= i < |cs| ==> Placed(cs, accounts, i)
  }

  lemma PlacedPush(cs: seq<Context>, accounts: map<Word, SimpleAccount>, c: Context)
    requires AllPlaced(cs, accounts) && Placed(cs + [c], accounts, |cs|)
    ensures AllPlaced(cs + [c], accounts)
  {
    forall i | 0 <= i < |cs| + 1 ensures Placed(cs + [c], accounts, i) {
      if i < |cs| { assert Placed(cs, accounts, i); }
    }
  }

  lemma PlacedPop(cs: seq<Context>, accounts: map<Word, SimpleAccount>)
    requires cs != [] && AllPlaced(cs, accounts)
    ensures AllPlaced(cs[..|cs| - 1], accounts)
  {
    var below := cs[..|cs| - 1];
    forall i | 0 <= i < |below| ensures Placed(below, accounts, i) {
      assert Placed(cs, accounts, i);
    }
  }

  /** New accounts do not disturb the contexts. */
  lemma PlacedKept(cs: seq<Context>, accounts: map<Word, SimpleAccount>, more: map<Word, SimpleAccount>)
    requires AllPlaced(cs, accounts) && forall a :: a in accounts ==> a in more && more[a] == accounts[a]
    ensures AllPlaced(cs, more)
  {
    forall i | 0 <= i < |cs| ensures Placed(cs, more, i) {
      assert Placed(cs, accounts, i);
    }
  }

  lemma ViewsPush(cs: seq<Context>, c: Context)
    ensures Views(cs + [c]) == Views(cs) + [c.View()]
  {
  }

  lemma ViewsPop(cs: seq<Context>)
    requires cs != []
    ensures Views(cs[..|cs| - 1]) == Views(cs)[..|cs| - 1]
  {
  }

  /** Only the last of these contexts has changed. */
  lemma LastChanged(cs: seq<Context>, before: seq<Ctx>)
    requires cs != [] && |before| == |cs|
    requires forall i :: 0 <= i < |cs| - 1 ==> cs[i].View() == before[i]
    ensures Views(cs) == before[..|cs| - 1] + [cs[|cs| - 1].View()]
  {
  }

  // ----- What the loop makes of a dispatched opcode -----

  /** The rest of the loop turn: the catch block if something was raised, then the step. */
  function Rest(sig: Signal, m: Machine): Status
    requires m.ctxts != [] ==> Nested(m.ctxts)
    requires sig.Raised? ==> m.ctxts != []
  {
    match sig
    case Completed => Resume(m)
    case Foreign => Escaped(m.w)
    case Raised(e) =>
      var n := |m.ctxts| - 1;
      NestedSplit(m.ctxts);
      OnException(m.(ctxts := m.ctxts[..n]), m.ctxts[n].handler, e)
  }

  lemma PushedResult(m: Machine, v: Word, c: Ctx)
    requires m.ctxts != [] && |m.ctxts[|m.ctxts| - 1].s| != MAX_STACK
    requires c == m.ctxts[|m.ctxts| - 1].(s := [v] + m.ctxts[|m.ctxts| - 1].s)
    ensures PushResult(m, v) == Ok(m.(ctxts := m.ctxts[..|m.ctxts| - 1] + [c]))
  {
  }

  lemma UnpushedResult(m: Machine, v: Word)
    requires m.ctxts != [] && |m.ctxts[|m.ctxts| - 1].s| == MAX_STACK
    ensures PushResult(m, v) == Throw(OutOfBounds)
    ensures m == m.(ctxts := m.ctxts[..|m.ctxts| - 1] + [m.ctxts[|m.ctxts| - 1]])
  {
  }

  /** The machine with the last context replaced. */
  function WithLast(m: Machine, c: Ctx): (r: Machine)
    requires m.ctxts != []
    ensures |r.ctxts| == |m.ctxts| && r.ctxts[|r.ctxts| - 1] == c && r == Machine(r.ctxts, m.w, m.result)
    ensures r.ctxts[..|r.ctxts| - 1] == m.ctxts[..|m.ctxts| - 1]
  {
    m.(ctxts := m.ctxts[..|m.ctxts| - 1] + [c])
  }

  lemma LastTwice(m: Machine, c1: Ctx, w: World, c2: Ctx)
    requires m.ctxts != []
    ensures WithLast(WithLast(m, c1).(w := w), c2) == WithLast(m, c2).(w := w)
  {
  }

  /** Where the return handler of a popped context leaves `m`, as an exception or not. */
  ghost predicate Delivered(r: Exc<()>, m: Machine, m1: Machine, h: Handler, output: seq<Byte>) {
    && Popped(m, h) && Popped(m1, h)
    && OnReturn(m, h, output) == if r.Ok? then Resume(m1) else OnException(m1, h, r.error)
  }

  lemma CallDelivered(r: Exc<()>, m: Machine, h: Handler, output: seq<Byte>, mem: seq<Byte>, m2: Machine)
    requires h.CallRet? && Popped(m, h) && Popped(m2, h)
    requires CopyMem(m.ctxts[|m.ctxts| - 1].mem, h.offOut, output, 0, h.sizeOut, 0) == Ok(mem)
    requires var m1 := WithLast(m, m.ctxts[|m.ctxts| - 1].(mem := mem));
             if r.Ok? then PushResult(m1, 1) == Ok(m2) else PushResult(m1, 1) == Throw(r.error) && m2 == m1
    ensures Delivered(r, m, m2, h, output)
  {
    hide CopyMem, PushResult, Nested;
  }

  lemma CallUndelivered(m: Machine, h: Handler, output: seq<Byte>, e: ErrorType)
    requires h.CallRet? && Popped(m, h)
    requires CopyMem(m.ctxts[|m.ctxts| - 1].mem, h.offOut, output, 0, h.sizeOut, 0) == Throw(e)
    ensures Delivered(Throw(e), m, m, h, output)
  {
    hide CopyMem, PushResult, Nested;
  }

  lemma CreateDelivered(r: Exc<()>, m: Machine, h: Handler, output: seq<Byte>, m2: Machine)
    requires h.CreateRet? && Popped(m, h) && Popped(m2, h)
    requires var m1 := m.(w := SetCode(m.w, h.addr, output));
             if r.Ok? then PushResult(m1, h.addr) == Ok(m2) else PushResult(m1, h.addr) == Throw(r.error) && m2 == m1
    ensures Delivered(r, m, m2, h, output)
  {
    hide PushResult, Nested, SetCode;
  }

  lemma TopDelivered(m: Machine, output: seq<Byte>)
    requires m.ctxts == []
    ensures Delivered(Ok(()), m, m.(result := m.result.(er := ExitReturned, output := output)), Handler.Top, output)
  {
  }

  /** From `m`, the outcome `o` of the dispatched opcode has led to `m1`: the loop goes on as it should. */
  ghost predicate Turned(sig: Signal, m: Machine, m1: Machine, o: Outcome) {
    && m.ctxts != [] && Nested(m.ctxts)
    && (o.Next? ==> o.c.handler == m.ctxts[|m.ctxts| - 1].handler)
    && (o.Entered? ==> o.c.handler == m.ctxts[|m.ctxts| - 1].handler && !o.child.handler.Top?)
    && (m1.ctxts != [] ==> Nested(m1.ctxts))
    && (sig.Raised? ==> m1.ctxts != [])
    && Rest(sig, m1) == Deliver(m, o)
  }

  lemma RaisedTurn(m: Machine, m1: Machine, o: Outcome)
    requires m.ctxts != [] && Nested(m.ctxts) && Nested(m1.ctxts)
    requires o.Threw? && m1.w == o.w && m1.result == m.result && |m1.ctxts| == |m.ctxts|
    requires var n := |m.ctxts| - 1; m1.ctxts[..n] == m.ctxts[..n] && m1.ctxts[n].handler == m.ctxts[n].handler
    ensures Turned(Raised(o.error), m, m1, o)
  {
    hide OnException, Nested;
    var n := |m.ctxts| - 1;
    assert m1.(ctxts := m1.ctxts[..n]) == m.(ctxts := m.ctxts[..n], w := o.w);
  }

  /** `below` is what the opcode left of the parents, and `m1` what the handler made of it. */
  lemma ReturnedTurn(r: Exc<()>, m: Machine, m1: Machine, o: Outcome, below: Machine)
    requires m.ctxts != [] && Nested(m.ctxts) && Nested(m1.ctxts) && o.Returned?
    requires var n := |m.ctxts| - 1;
             && Popped(m.(ctxts := m.ctxts[..n], w := o.w), m.ctxts[n].handler)
             && Delivered(r, m.(ctxts := m.ctxts[..n], w := o.w), below, m.ctxts[n].handler, o.output)
             && (r.Ok? ==> m1 == below)
             && (r.Throw? ==> |m1.ctxts| == n + 1 && m1.ctxts[n].handler == m.ctxts[n].handler
                              && below == m1.(ctxts := m1.ctxts[..n]))
    ensures Turned(SignalOf(r), m, m1, o)
  {
    hide OnException, OnReturn, Resume, Nested;
  }

  /** A halt handler has turned the parents `m` into `m1`, or has thrown and changed nothing. */
  predicate HaltedInto(r: Exc<()>, m: Machine, m1: Machine, h: Handler) {
    if h.Top? then r == Ok(()) && m1 == m.(result := m.result.(er := ExitHalted))
    else if m.ctxts == [] then false
    else if r.Ok? then PushResult(m, HaltWord(h)) == Ok(m1)
    else PushResult(m, HaltWord(h)) == Throw(r.error) && m1 == m
  }

  lemma HaltedTurn(r: Exc<()>, m: Machine, m1: Machine, o: Outcome)
    requires m.ctxts != [] && Nested(m.ctxts) && Nested(m1.ctxts) && o.Halted?
    requires var n := |m.ctxts| - 1; HaltedInto(r, m.(ctxts := m.ctxts[..n], w := o.w), m1, m.ctxts[n].handler)
    ensures Turned(SignalOf(r), m, m1, o)
  {
    hide OnException, PushResult, Resume;
    NestedSplit(m.ctxts);
  }

  /** Halting outside the try block: what `run` makes of code that ends without a halting opcode. */
  lemma HaltedFallOff(r: Exc<()>, m: Machine, m1: Machine)
    requires m.ctxts != [] && Nested(m.ctxts)
    requires var n := |m.ctxts| - 1; HaltedInto(r, m.(ctxts := m.ctxts[..n]), m1, m.ctxts[n].handler)
    ensures FallOff(m) == if r.Ok? then Finished(m1) else Escaped(m1.w)
  {
    hide PushResult, Nested;
  }

  lemma UnpaidOut(c: Ctx, w: World, e: ErrorType)
    requires PopAddress(c.s) == Throw(e)
    ensures ExecSelfdestruct(c, w) == Threw(e, w)
  {
    hide PopAddress;
  }

  /** SELFDESTRUCT once the recipient is known. */
  function PaidAll(w: World, from: Word, to: Word): Outcome {
    var r := PayTo(w, from, to, Lookup(w, from).balance);
    if r.Ok? then Halted(r.value.(destructs := r.value.destructs + [from])) else Threw(r.error, w)
  }

  lemma PaidOut(c: Ctx, w: World, a: Word, s: seq<Word>, r: Exc<()>, w2: World)
    requires PopAddress(c.s) == Ok((a, s))
    requires PaidAll(GetAccount(w, a), c.acc, a) == if r.Ok? then Halted(w2) else Threw(r.error, w2)
    ensures ExecSelfdestruct(c, w) == if r.Ok? then Halted(w2) else Threw(r.error, w2)
  {
    hide PayTo, GetAccount, Lookup, PopAddress;
  }

  lemma LocalTurn(sig: Signal, m: Machine, m1: Machine, o: Outcome, c: Ctx)
    requires m.ctxts != [] && Nested(m.ctxts) && c.handler == m.ctxts[|m.ctxts| - 1].handler
    requires m1 == WithLast(m, c).(w := m1.w) && Did(sig, c, m1.w, o)
    ensures Turned(sig, m, m1, o)
  {
    hide OnException, Resume, WithLast;
    NestedSplit(m.ctxts);
    NestedPush(m.ctxts[..|m.ctxts| - 1], c);
    assert m1.ctxts == m.ctxts[..|m.ctxts| - 1] + [c];
    if sig.Raised? { RaisedTurn(m, m1, o); }
  }

  lemma Unasked(op: Byte, c: Ctx, c2: Ctx, w: World, e: ErrorType)
    requires IsWorldOp(op) && op != SSTORE && PopAddress(c.s) == Throw(e)
    ensures Did(Raised(e), c2, w, ExecWorld(op, c, w))
  {
    hide PopAddress;
  }

  lemma AskedNumber(op: Byte, c: Ctx, w: World, a: Word, s: seq<Word>, v: Word, r: Exc<()>, c2: Ctx)
    requires (op == BALANCE || op == EXTCODESIZE) && PopAddress(c.s) == Ok((a, s))
    requires var acc := Lookup(GetAccount(w, a), a); v == if op == BALANCE then acc.balance else WrapWord(|acc.code|)
    requires c2 == c.(s := c2.s) && Leaves(r, c2.s, Push(s, v))
    ensures Did(SignalOf(r), c2, GetAccount(w, a), ExecWorld(op, c, w))
  {
    hide PopAddress, GetAccount, Lookup;
  }

  lemma AskedCode(c: Ctx, w: World, a: Word, s: seq<Word>, r: Exc<()>, c2: Ctx)
    requires PopAddress(c.s) == Ok((a, s)) && c2 == c.(s := c2.s, mem := c2.mem)
    requires LeavesBoth(r, c2.s, c2.mem, CopyOp(s, c.mem, Lookup(GetAccount(w, a), a).code))
    ensures Did(SignalOf(r), c2, GetAccount(w, a), ExecWorld(EXTCODECOPY, c, w))
  {
    hide PopAddress, GetAccount, Lookup, CopyOp;
  }

  lemma EnteredTurn(m: Machine, m1: Machine, o: Outcome)
    requires m.ctxts != [] && Nested(m.ctxts) && o.Entered?
    requires o.c.handler == m.ctxts[|m.ctxts| - 1].handler && !o.child.handler.Top?
    requires m1 == m.(ctxts := m.ctxts[..|m.ctxts| - 1] + [o.c, o.child], w := o.w)
    ensures Turned(Completed, m, m1, o)
  {
    hide Resume;
    var below := m.ctxts[..|m.ctxts| - 1];
    NestedSplit(m.ctxts);
    NestedPush(below, o.c);
    NestedPush(below + [o.c], o.child);
    assert below + [o.c] + [o.child] == m1.ctxts;
  }

  /** CREATE, once its operands are known and the endowment is paid. */
  function CreatePaid(depth: nat, c: Ctx, a: Word, initCode: seq<Byte>, w: World): Outcome {
    if depth >= MAX_CALL_DEPTH then Threw(OutOfBounds, w)
    else Entered(c, NewCtx(c.acc, a, [], initCode, 0, CreateRet(a)), w)
  }

  lemma Uncreated(env: Env, depth: nat, c: Ctx, w: World, e: ErrorType)
    requires CreateOperands(c) == Throw(e)
    ensures ExecCreate(env, depth, c, w) == Threw(e, w)
  {
    hide CreateOperands;
  }

  function NewAddress(env: Env, w: World, creator: Word): Word {
    env.newAddress(creator, Lookup(w, creator).nonce)
  }

  /** The payment of the endowment of CREATE ended with `r` in the world `w2`. */
  predicate Endowed(env: Env, w: World, creator: Word, value: Word, r: Exc<()>, w2: World) {
    var a := NewAddress(env, w, creator);
    var paid := PayTo(CreateAccount(w, a, value, []), creator, a, value);
    if r.Ok? then paid == Ok(w2) else paid == Throw(r.error) && w2 == CreateAccount(w, a, value, [])
  }

  lemma Created(env: Env, depth: nat, c: Ctx, w: World, value: Word, mem: seq<Byte>, initCode: seq<Byte>, s: seq<Word>,
                r: Exc<()>, w2: World)
    requires CreateOperands(c) == Ok((value, mem, initCode, s)) && Endowed(env, w, c.acc, value, r, w2)
    ensures ExecCreate(env, depth, c, w) ==
              if r.Throw? then Threw(r.error, w2)
              else CreatePaid(depth, c.(s := s, mem := mem), NewAddress(env, w, c.acc), initCode, w2)
  {
    hide CreateOperands, PayTo, CreateAccount, Lookup;
  }

  /** How an opcode that pushes a context ends. */
  lemma PushedTurn(r: Exc<()>, m: Machine, m2: Machine, m1: Machine, o: Outcome, c: Ctx, child: Ctx, w: World)
    requires m.ctxts != [] && Nested(m.ctxts) && Nested(m1.ctxts)
    requires c.handler == m.ctxts[|m.ctxts| - 1].handler && !child.handler.Top?
    requires o == if |m.ctxts| >= MAX_CALL_DEPTH then Threw(OutOfBounds, w) else Entered(c, child, w)
    requires m2 == WithLast(m, c).(w := w)
    requires if |m.ctxts| >= MAX_CALL_DEPTH then r == Throw(OutOfBounds) && m1 == m2
             else r == Ok(()) && m1 == m2.(ctxts := m2.ctxts + [child])
    ensures Turned(SignalOf(r), m, m1, o)
  {
    hide Turned, Nested;
    if |m.ctxts| >= MAX_CALL_DEPTH {
      RaisedTurn(m, m1, o);
    } else {
      assert m.ctxts[..|m.ctxts| - 1] + [c] + [child] == m.ctxts[..|m.ctxts| - 1] + [c, child];
      EnteredTurn(m, m1, o);
    }
  }

  lemma Unreached(op: Byte, depth: nat, c: Ctx, w: World, e: ErrorType)
    requires CallOperands(op, c.s) == Throw(e)
    ensures ExecCall(op, depth, c, w) == Threw(e, w)
  {
    hide CallOperands;
  }

  /** The payment of a call ended with `r` in the world `w2`. */
  predicate CalleePaid(w: World, from: Word, to: Word, value: Word, r: Exc<()>, w2: World) {
    var paid := PayTo(GetAccount(w, to), from, to, value);
    if r.Ok? then paid == Ok(w2) else paid == Throw(r.error) && w2 == GetAccount(w, to)
  }

  lemma Reached(op: Byte, depth: nat, c: Ctx, w: World, a: CallArgs, r: Exc<()>, w2: World)
    requires CallOperands(op, c.s) == Ok(a)
    requires if 1 <= a.addr <= 8 then r == Throw(NotImplemented) && w2 == w
             else CalleePaid(w, c.acc, a.addr, a.value, r, w2)
    ensures ExecCall(op, depth, c, w) ==
              if r.Throw? then Threw(r.error, w2) else CallPaid(op, depth, c.(s := a.s), a, w2)
  {
    hide CallOperands, GetAccount, PayTo, CallWindows, Lookup;
  }

  /** The loop turn of `m` can be told from `m` with the operands popped and the world changed. */
  lemma TurnedStaged(sig: Signal, m: Machine, c: Ctx, w: World, m1: Machine, o: Outcome)
    requires m.ctxts != [] && c.handler == m.ctxts[|m.ctxts| - 1].handler && Nested(m.ctxts)
    requires Turned(sig, WithLast(m, c).(w := w), m1, o)
    ensures Turned(sig, m, m1, o)
  {
    hide OnException, OnReturn, OnHalt, Resume, WithLast;
    var m0 := WithLast(m, c).(w := w);
    var n := |m.ctxts| - 1;
    assert m0.ctxts[..n] == m.ctxts[..n] && m0.ctxts[n].handler == m.ctxts[n].handler;
  }

  /** A call of code whose windows do not fit, and one that gets as far as its new context. */
  lemma CallEnters(op: Byte, depth: nat, c: Ctx, a: CallArgs, w: World, input: Exc<Vector>, mem: seq<Byte>)
    requires IsCall(op) && c.s == a.s && Lookup(w, a.addr).code != []
    requires CallWindows(c.mem, a) == if input.Ok? then Ok((mem, input.value)) else Throw(input.error)
    ensures CallPaid(op, depth, c, a, w) ==
              if input.Throw? then Threw(input.error, w)
              else if depth >= MAX_CALL_DEPTH then Threw(OutOfBounds, w)
              else Entered(c.(mem := mem), Callee(op, c, a, input.value, Lookup(w, a.addr).code), w)
  {
    hide CallWindows, Lookup;
  }

  /** `Exec` on the opcodes that are not local. */
  function ExecOther(op: Byte, env: Env, depth: nat, c: Ctx, w: World): Outcome {
    if IsWorldOp(op) then ExecWorld(op, c, w)
    else if op == RETURN then ExecReturn(c, w)
    else if op == STOP then Halted(w)
    else if op == SELFDESTRUCT then ExecSelfdestruct(c, w)
    else if op == CREATE then ExecCreate(env, depth, c, w)
    else ExecCall(op, depth, c, w)
  }

  lemma ExecShared(env: Env, depth: nat, c: Ctx, w: World)
    requires c.pc < |c.code| && !IsLocal(c.code[c.pc])
    ensures Exec(env, depth, c, w) == ExecOther(c.code[c.pc], env, depth, c, w)
  {
    hide ExecWorld, ExecReturn, ExecSelfdestruct, ExecCreate, ExecCall, ExecPush, ExecJump, MemoryOp, StackOp, ExecLoad;
  }

  // ----- Turns of the run loop -----

  /** The loop goes on, has ended, or was left by an exception. */
  datatype Progress = GoesOn | Ended | Left

  predicate Shown(t: Progress, m: Machine, st: Status) {
    match st
    case Running(m1) => t.GoesOn? && m == m1
    case Finished(m1) => t.Ended? && m == m1
    case Escaped(w) => t.Left? && m.w == w
  }

  lemma TurnIsStep(env: Env, sig: Signal, m: Machine, m1: Machine)
    requires m.ctxts != [] && Nested(m.ctxts)
    requires var c := m.ctxts[|m.ctxts| - 1]; c.pc < |c.code| && Turned(sig, m, m1, Exec(env, |m.ctxts|, c, m.w))
    ensures (m1.ctxts != [] ==> Nested(m1.ctxts)) && (sig.Raised? ==> m1.ctxts != [])
    ensures Step(env, m) == Rest(sig, m1)
  {
    hide Exec, Deliver, Rest, Nested;
  }

  class Interpreter {
    const gs: SimpleGlobalState
    const tx: Transaction
    const env: Env
    var ctxts: seq<Context>
    var ctxt: Context?
    var result: ExecResult

    ghost predicate Valid()
      reads this, gs
    {
      && gs.Valid()
      && ctxt == (if ctxts == [] then null else ctxts[|ctxts| - 1])
      && Apart(ctxts)
      && AllPlaced(ctxts, gs.accounts)
    }

    ghost function Objects(): set<object>
      reads this, gs
    {
      {this, gs, tx} + gs.Objects() + Parts(ctxts)
    }

    ghost function WorldView(): World
      reads gs, gs.Objects(), tx
    {
      World(gs.View(), tx.selfdestructList)
    }

    ghost function View(): Machine
      reads this, gs, tx, gs.Objects(), Parts(ctxts)
    {
      Machine(Views(ctxts), WorldView(), result)
    }

    /** The machine without the running context. */
    ghost function Below(): Machine
      requires ctxts != []
      reads this, gs, tx, gs.Objects(), Parts(ctxts)
    {
      Machine(Views(ctxts)[..|ctxts| - 1], WorldView(), result)
    }

    constructor (gs: SimpleGlobalState, tx: Transaction, env: Env)
      requires gs.Valid()
      ensures Valid() && ctxts == [] && this.gs == gs && this.tx == tx && this.env == env
      ensures Objects() == {this, gs, tx} + gs.Objects()
      ensures View() == Machine([], WorldView(), ExecResult(ExitReturned, OutOfBounds, []))
    {
      this.gs, this.tx, this.env := gs, tx, env;
      ctxts, ctxt, result := [], null, ExecResult(ExitReturned, OutOfBounds, []);
    }

    method PushContext(caller: Word, acc: SimpleAccount, input: Vector, code: Vector, callValue: Word, handler: Handler)
      returns (r: Exc<()>)
      requires Valid() && gs.Finds(acc.address, acc)
      requires handler.Top? <==> ctxts == []
      requires handler.CallRet? ==> handler.offOut < TWO64 && handler.sizeOut < TWO64
      requires handler.CreateRet? ==> handler.addr == acc.address
      modifies `ctxts, `ctxt
      ensures Valid()
      ensures |old(ctxts)| >= MAX_CALL_DEPTH ==> r == Throw(OutOfBounds) && ctxts == old(ctxts)
      ensures |old(ctxts)| < MAX_CALL_DEPTH ==>
                && r == Ok(()) && ctxt != null && ctxts == old(ctxts) + [ctxt] && fresh(ctxt) && fresh(ctxt.s)
                && ctxt.View() == NewCtx(caller, acc.address, input, code, callValue, handler)
    {
      if |ctxts| >= MAX_CALL_DEPTH {
        return Throw(OutOfBounds);
      }
      var c := new Context(caller, acc, input, callValue, code, handler, ctxt);
      PlacedPush(ctxts, gs.accounts, c);
      ctxts := ctxts + [c];
      ctxt := c;
      return Ok(());
    }

    method PopContext()
      requires Valid() && ctxts != []
      modifies `ctxts, `ctxt
      ensures Valid() && ctxts == old(ctxts)[..|old(ctxts)| - 1]
      ensures View() == old(Below())
    {
      hide Views, SimpleGlobalState.View, AllPlaced, SimpleGlobalState.Valid;
      PlacedPop(ctxts, gs.accounts);
      ViewsPop(ctxts);
      ctxts := ctxts[..|ctxts| - 1];
      if ctxts != [] {
        ctxt := ctxts[|ctxts| - 1];
      } else {
        ctxt := null;
      }
      assert gs.Objects() == old(gs.Objects());
      assert Views(ctxts) == old(Views(ctxts))[..|old(ctxts)| - 1];
    }

    lemma ViewNested()
      requires Valid()
      ensures Nested(View().ctxts)
      ensures ctxts != [] ==> Popped(Below(), ctxts[|ctxts| - 1].handler)
    {
      forall i | 0 <= i < |ctxts| ensures View().ctxts[i].handler.Top? <==> i == 0 {
        assert Placed(ctxts, gs.accounts, i);
      }
    }

    /** Of the waiting contexts only the parent of the running one has changed. */
    lemma BelowChanged(before: seq<Ctx>)
      requires |ctxts| >= 2 && |before| == |ctxts| - 1
      requires forall i :: 0 <= i < |ctxts| - 2 ==> ctxts[i].View() == before[i]
      ensures Below().ctxts == before[..|ctxts| - 2] + [ctxts[|ctxts| - 2].View()]
    {
      ViewsPop(ctxts);
      LastChanged(ctxts[..|ctxts| - 1], before);
    }

    /** What is known of the running context and its parent. */
    lemma Top()
      requires Valid() && ctxts != []
      ensures ctxt == ctxts[|ctxts| - 1] && ctxt.Valid() && gs.Finds(ctxt.acc.address, ctxt.acc)
      ensures ctxt.parent == if |ctxts| == 1 then null else ctxts[|ctxts| - 2]
      ensures ctxt.handler.Top? <==> |ctxts| == 1
      ensures ctxt.handler.CallRet? ==> ctxt.handler.offOut < TWO64 && ctxt.handler.sizeOut < TWO64
      ensures ctxt.handler.CreateRet? ==> ctxt.handler.addr == ctxt.acc.address
      ensures forall i :: 0 <= i < |ctxts| - 1 ==> ctxts[i] != ctxt && ctxts[i].s != ctxt.s
      ensures forall i :: 0 <= i < |ctxts| - 2 ==> ctxts[i] != ctxt.parent && ctxts[i].s != ctxt.parent.s
      ensures Popped(Below(), ctxt.handler)
    {
      ViewNested();
      assert Placed(ctxts, gs.accounts, |ctxts| - 1);
    }

    /** The same for the view, which the methods below keep closed. */
    lemma Shape()
      requires Valid() && ctxts != []
      ensures ctxt == ctxts[|ctxts| - 1] && Popped(Below(), ctxt.handler) && Nested(View().ctxts)
      ensures |View().ctxts| == |ctxts| && View().ctxts[|ctxts| - 1] == ctxt.View()
      ensures Below() == View().(ctxts := View().ctxts[..|ctxts| - 1])
      ensures View().w == WorldView() && View().result == result
    {
      ViewNested();
    }

    // ----- Handlers -----

    /** `parentContext->s.push(v)`, while the child is still on top. */
    method PushToParent(parent: Context, v: Word) returns (r: Exc<()>)
      requires Valid() && ctxt != null && parent == ctxt.parent
      modifies parent.s
      ensures |ctxts| >= 2
      ensures r.Ok? ==> PushResult(old(Below()), v) == Ok(Below())
      ensures r.Throw? ==> PushResult(old(Below()), v) == Throw(r.error) && Below() == old(Below())
    {
      hide SimpleGlobalState.View, SimpleGlobalState.Valid, Views, AllPlaced, Apart;
      Top();
      ghost var cs, m := ctxts[..|ctxts| - 1], Below();
      r := parent.s.Push(v);
      assert gs.Objects() == old(gs.Objects());
      BelowChanged(m.ctxts);
      if r.Ok? { PushedResult(m, v, parent.View()); } else { UnpushedResult(m, v); }
    }

    /** The parent, seen from the machine without the running context. */
    lemma BelowShape()
      requires Valid() && |ctxts| >= 2
      ensures ctxt.parent != null && Popped(Below(), ctxt.handler)
      ensures |Below().ctxts| == |ctxts| - 1 && Below().ctxts[|ctxts| - 2] == ctxt.parent.View()
    {
      Top();
    }

    method SetParentMemory(parent: Context, mem: Vector)
      requires Valid() && ctxt != null && parent == ctxt.parent
      modifies parent`mem
      ensures Valid() && |ctxts| >= 2
      ensures Below() == WithLast(old(Below()), old(parent.View()).(mem := mem))
    {
      hide SimpleGlobalState.View, SimpleGlobalState.Valid, Views, AllPlaced, Apart;
      Top();
      ghost var m := Below();
      parent.mem := mem;
      assert gs.Objects() == old(gs.Objects());
      BelowChanged(m.ctxts);
    }

    /** The return handler of a call copies the output into the window and pushes 1. */
    method CallReturn(parent: Context, output: Vector) returns (r: Exc<()>)
      requires Valid() && ctxt != null && parent == ctxt.parent && ctxt.handler.CallRet?
      modifies parent`mem, parent.s
      ensures Delivered(r, old(Below()), Below(), ctxt.handler, output)
    {
      hide SimpleGlobalState.Valid, AllPlaced, Apart, Below, CopyMem, PushResult, Delivered;
      Top();
      BelowShape();
      ghost var m := Below();
      var h := ctxt.handler;
      var dst := CopyMemRaw(h.offOut, 0, h.sizeOut, parent.mem, output, 0);
      BelowStays();
      if dst.Throw? {
        CallUndelivered(m, h, output, dst.error);
        return Throw(dst.error);
      }
      BelowShape();
      SetParentMemory(parent, dst.value);
      r := PushToParent(parent, 1);
      BelowShape();
      CallDelivered(r, m, h, output, dst.value, Below());
    }

    twostate lemma BelowStays()
      requires old(ctxts) != [] && unchanged(this) && unchanged(gs) && unchanged(tx) && unchanged(gs.Objects())
      requires forall i :: 0 <= i < |ctxts| ==> unchanged(ctxts[i]) && unchanged(ctxts[i].s)
      ensures Below() == old(Below())
    {
      assert gs.Objects() == old(gs.Objects());
      assert Views(ctxts) == old(Views(ctxts));
    }

    /** The return handler of a creation stores the output as code and pushes the new address. */
    method CreateReturn(parent: Context, output: Vector) returns (r: Exc<()>)
      requires Valid() && ctxt != null && parent == ctxt.parent && ctxt.handler.CreateRet?
      modifies ctxt.acc`code, parent.s
      ensures Delivered(r, old(Below()), Below(), ctxt.handler, output)
    {
      hide SimpleGlobalState.Valid, Views, AllPlaced, Apart, PushResult, Delivered;
      Top();
      ghost var m := Below();
      var newAcc := ctxt.acc;
      SetAccountCode(newAcc, output);
      assert Views(ctxts) == old(Views(ctxts));
      assert Below() == m.(w := SetCode(m.w, newAcc.address, output));
      r := PushToParent(parent, newAcc.address);
      Top();
      CreateDelivered(r, m, ctxt.handler, output, Below());
    }

    method SetAccountCode(acc: SimpleAccount, code: Vector)
      requires gs.Valid() && gs.Finds(acc.address, acc)
      modifies acc`code
      ensures WorldView() == SetCode(old(WorldView()), acc.address, code)
    {
      ghost var before, v := gs.View(), acc.Value();
      assert before[acc.address] == v;
      acc.code := code;
      OneAccount(gs, before, acc);
    }

    ghost function ParentParts(): set<object>
      reads this
    {
      if ctxt == null || ctxt.parent == null then {} else {ctxt.parent, ctxt.parent.s}
    }

    /** The return handler of the running context. */
    method ReturnHandler(output: Vector) returns (r: Exc<()>)
      requires Valid() && ctxt != null
      modifies `result, ctxt.acc`code, ParentParts()
      ensures Valid()
      ensures Delivered(r, old(Below()), Below(), ctxt.handler, output)
    {
      hide SimpleGlobalState.View, SimpleGlobalState.Valid, Views, AllPlaced, Apart, Delivered;
      Top();
      match ctxt.handler
      case Top =>
        ghost var m := Below();
        result := result.(er := ExitReturned, output := output);
        assert gs.Objects() == old(gs.Objects());
        assert Views(ctxts) == old(Views(ctxts));
        TopDelivered(m, output);
        return Ok(());
      case CallRet(_, _) =>
        r := CallReturn(ctxt.parent, output);
      case CreateRet(_) =>
        r := CreateReturn(ctxt.parent, output);
    }

    /** Only the running context has changed. */
    lemma TopChanged(m: Machine)
      requires ctxts != [] && |m.ctxts| == |ctxts| && WorldView() == m.w && result == m.result
      requires forall i :: 0 <= i < |ctxts| - 1 ==> ctxts[i].View() == m.ctxts[i]
      ensures View() == WithLast(m, ctxts[|ctxts| - 1].View())
      ensures Below() == m.(ctxts := m.ctxts[..|ctxts| - 1])
    {
    }

    method PopOutput() returns (output: Exc<Vector>)
      requires Valid() && ctxt != null
      modifies ctxt`mem, ctxt.s
      ensures output == ReturnData(old(ctxt.View()))
      ensures View() == WithLast(old(View()), ctxt.View()) && Below() == old(Below())
    {
      hide SimpleGlobalState.View, SimpleGlobalState.Valid, Views, AllPlaced, Apart, ReturnData;
      Top();
      ghost var m := View();
      output := PopSlice(ctxt);
      assert gs.Objects() == old(gs.Objects());
      TopChanged(m);
    }

    method Return() returns (r: Exc<()>)
      requires Valid() && ctxt != null
      modifies this, ctxt`mem, ctxt.s, ctxt.acc`code, ParentParts()
      ensures Valid() && gs.accounts == old(gs.accounts) && ctxts <= old(ctxts)
      ensures var m := old(View());
              m.ctxts != [] && Turned(SignalOf(r), m, View(), ExecReturn(m.ctxts[|m.ctxts| - 1], m.w))
    {
      hide SimpleGlobalState.Valid, AllPlaced, Apart, View, Below, Delivered, Turned, ReturnData;
      Shape();
      ghost var m := View();
      var output := PopOutput();
      Shape();
      if output.Throw? {
        RaisedTurn(m, View(), Threw(output.error, m.w));
        return Throw(output.error);
      }
      r := HandOver(output.value);
      ViewNested();
      if r.Ok? {
        ReturnedTurn(r, m, View(), Returned(output.value, m.w), View());
      } else {
        Shape();
        ReturnedTurn(r, m, View(), Returned(output.value, m.w), Below());
      }
    }

    /** Invokes the return handler, then drops the context; not reached when the handler throws. */
    method HandOver(output: Vector) returns (r: Exc<()>)
      requires Valid() && ctxt != null
      modifies this, ctxt.acc`code, ParentParts()
      ensures Valid() && gs.accounts == old(gs.accounts) && ctxts <= old(ctxts)
      ensures r.Ok? ==> Delivered(r, old(Below()), View(), old(ctxt.handler), output)
      ensures r.Throw? ==> ctxt == old(ctxt) && ctxts == old(ctxts)
      ensures r.Throw? ==> Delivered(r, old(Below()), Below(), ctxt.handler, output)
    {
      hide SimpleGlobalState.View, SimpleGlobalState.Valid, Views, AllPlaced, Apart, Delivered;
      r := ReturnHandler(output);
      if r.Ok? {
        PopContext();
      }
    }

    method PushToTop(v: Word) returns (r: Exc<()>)
      requires Valid() && ctxt != null
      modifies ctxt.s
      ensures r.Ok? ==> PushResult(old(View()), v) == Ok(View())
      ensures r.Throw? ==> PushResult(old(View()), v) == Throw(r.error) && View() == old(View())
    {
      hide SimpleGlobalState.View, SimpleGlobalState.Valid, Views, AllPlaced, Apart, PushResult;
      Top();
      ghost var m := View();
      r := ctxt.s.Push(v);
      assert gs.Objects() == old(gs.Objects());
      TopChanged(m);
      if r.Ok? { PushedResult(m, v, ctxt.View()); } else { UnpushedResult(m, v); }
    }

    /** Pops the running context first and runs its saved halt handler afterwards. */
    method Stop() returns (r: Exc<()>)
      requires Valid() && ctxt != null
      modifies this, ParentParts()
      ensures Valid()
      ensures HaltedInto(r, old(Below()), View(), old(ctxt.handler))
      ensures gs.accounts == old(gs.accounts) && ctxts <= old(ctxts)
    {
      hide SimpleGlobalState.Valid, AllPlaced, Apart, View, Below;
      Top();
      Shape();
      var hh := ctxt.handler;
      PopContext();
      if hh.Top? {
        SetHalted();
        return Ok(());
      }
      r := PushToTop(HaltWord(hh));
    }

    method Halt() returns (r: Exc<()>)
      requires Valid() && ctxt != null
      modifies this, ParentParts()
      ensures Valid() && gs.accounts == old(gs.accounts)
      ensures ctxts <= old(ctxts)
      ensures var m := old(View()); m.ctxts != [] && Turned(SignalOf(r), m, View(), Halted(m.w))
    {
      hide SimpleGlobalState.Valid, AllPlaced, Apart, View, Below, Turned, HaltedInto;
      Shape();
      ghost var m := View();
      r := Stop();
      ViewNested();
      HaltedTurn(r, m, View(), Halted(m.w));
    }

    method SetHalted()
      modifies `result
      ensures View() == old(View()).(result := old(View()).result.(er := ExitHalted))
    {
      result := result.(er := ExitHalted);
      assert gs.Objects() == old(gs.Objects());
    }

    lemma HasParent()
      requires Valid() && ctxt != null && !ctxt.handler.Top?
      ensures ctxt.parent != null
    {
      Top();
    }

    /** The exception handler of the running context, which is popped afterwards. */
    method Catch(e: ErrorType) returns (r: Exc<()>)
      requires Valid() && ctxt != null
      modifies this, ParentParts()
      ensures Valid() && gs.accounts == old(gs.accounts) && ctxts <= old(ctxts)
      ensures r.Ok? ==> ctxts == old(ctxts)[..|old(ctxts)| - 1]
      ensures Popped(old(Below()), old(ctxt.handler))
      ensures OnException(old(Below()), old(ctxt.handler), e)
              == if r.Ok? then Resume(View()) else Escaped(View().w)
    {
      hide SimpleGlobalState.Valid, AllPlaced, Apart, View, Below, Resume;
      Shape();
      if ctxt.handler.Top? {
        SetThrown(e);
        PopContext();
        return Ok(());
      }
      HasParent();
      r := PushToParent(ctxt.parent, 0);
      Shape();
      if r.Ok? {
        PopContext();
      }
    }

    method SetThrown(e: ErrorType)
      requires Valid() && ctxt != null
      modifies `result
      ensures Below() == old(Below()).(result := old(Below()).result.(er := ExitThrew, ex := e))
    {
      result := result.(er := ExitThrew, ex := e);
      assert gs.Objects() == old(gs.Objects());
    }

    // ----- The world -----

    lemma AccountInWorld(acc: SimpleAccount)
      requires gs.Finds(acc.address, acc)
      ensures Lookup(WorldView(), acc.address) == acc.Value() && acc.address in WorldView().accounts
      ensures acc in gs.Objects()
    {
    }

    lemma CalleeCode(callee: SimpleAccount)
      requires gs.Finds(callee.address, callee)
      ensures Lookup(View().w, callee.address).code == callee.code
    {
      AccountInWorld(callee);
    }

    method FetchAccount(addr: Word) returns (acc: SimpleAccount)
      requires Valid()
      modifies gs
      ensures Valid() && gs.Finds(addr, acc) && acc.address == addr && gs.Grew()
      ensures acc in old(gs.Objects()) || fresh(acc)
      ensures View() == old(View()).(w := GetAccount(old(View()).w, addr))
    {
      hide SimpleGlobalState.View, Views, AllPlaced, Apart;
      ghost var before := gs.accounts;
      acc := gs.Get(addr);
      PlacedKept(ctxts, before, gs.accounts);
      assert Views(ctxts) == old(Views(ctxts));
    }

    method CreateInWorld(addr: Word, balance: Word) returns (acc: SimpleAccount)
      requires Valid()
      modifies gs
      ensures Valid() && gs.Finds(addr, acc) && acc.address == addr && gs.Grew()
      ensures acc in old(gs.Objects()) || fresh(acc)
      ensures View() == old(View()).(w := CreateAccount(old(View()).w, addr, balance, []))
    {
      hide SimpleGlobalState.View, Views, AllPlaced, Apart;
      ghost var before := gs.accounts;
      acc := gs.Create(addr, balance, []);
      PlacedKept(ctxts, before, gs.accounts);
      assert Views(ctxts) == old(Views(ctxts));
    }

    /** The running context's account pays another one. */
    method PayFrom(from: SimpleAccount, to: SimpleAccount, amount: Word) returns (r: Exc<()>)
      requires Valid() && gs.Finds(from.address, from) && gs.Finds(to.address, to)
      modifies from`balance, to`balance
      ensures r.Ok? ==> PayTo(old(View()).w, from.address, to.address, amount) == Ok(View().w)
      ensures r.Throw? ==> PayTo(old(View()).w, from.address, to.address, amount) == Throw(r.error)
      ensures View() == old(View()).(w := View().w) && (r.Throw? ==> View() == old(View()))
      ensures Valid() && gs.accounts == old(gs.accounts)
    {
      hide SimpleGlobalState.View, Views, AllPlaced, Apart, PayTo;
      r := Pay(gs, from, to, amount, tx.selfdestructList);
      assert Views(ctxts) == old(Views(ctxts));
    }

    /** Pops an address from the running context. */
    method PopTopAddr() returns (r: Exc<Word>)
      requires Valid() && ctxt != null
      modifies ctxt.s
      ensures r.Ok? ==> PopAddress(old(ctxt.View()).s) == Ok((r.value, ctxt.View().s))
      ensures r.Throw? ==> PopAddress(old(ctxt.View()).s) == Throw(r.error)
      ensures View() == WithLast(old(View()), ctxt.View()) && ctxt.View() == old(ctxt.View()).(s := ctxt.View().s)
      ensures Valid() && gs.accounts == old(gs.accounts)
    {
      hide SimpleGlobalState.View, SimpleGlobalState.Valid, Views, AllPlaced, Apart;
      Top();
      ghost var m := View();
      r := PopAddr(ctxt.s);
      assert gs.Objects() == old(gs.Objects());
      TopChanged(m);
    }

    method AppendSelfdestruct(addr: Word)
      requires Valid()
      modifies tx
      ensures Valid() && gs.accounts == old(gs.accounts)
      ensures View() == old(View()).(w := old(View()).w.(destructs := old(View()).w.destructs + [addr]))
    {
      hide SimpleGlobalState.View, Views;
      tx.selfdestructList := tx.selfdestructList + [addr];
      assert gs.Objects() == old(gs.Objects());
      assert Views(ctxts) == old(Views(ctxts));
    }

    /** Only the running context and the world differ from `m`. */
    ghost predicate Staged(m: Machine)
      reads this, gs, tx, gs.Objects(), Parts(ctxts), ctxt, if ctxt == null then {} else {ctxt.s}
    {
      && ctxt != null && m.ctxts != [] && ctxt.handler == m.ctxts[|m.ctxts| - 1].handler
      && View() == WithLast(m, ctxt.View()).(w := View().w)
    }

    /** `gs.get(pop_addr(ctxt->s))`. */
    method FetchPopped() returns (r: Exc<SimpleAccount>)
      requires Valid() && ctxt != null
      modifies ctxt.s, gs
      ensures Valid() && gs.Grew() && Staged(old(View()))
      ensures ctxt.View() == old(ctxt.View()).(s := ctxt.View().s)
      ensures r.Throw? ==> PopAddress(old(ctxt.View()).s) == Throw(r.error) && View().w == old(View()).w
      ensures r.Ok? ==> PopAddress(old(ctxt.View()).s) == Ok((r.value.address, ctxt.View().s))
      ensures r.Ok? ==> View().w == GetAccount(old(View()).w, r.value.address) && gs.Finds(r.value.address, r.value)
      ensures r.Ok? ==> r.value in old(gs.Objects()) || fresh(r.value)
    {
      hide SimpleGlobalState.Valid, SimpleGlobalState.Objects, AllPlaced, Apart, View, GetAccount, WithLast, PopAddress;
      Shape();
      var addr := PopTopAddr();
      if addr.Ok? {
        var acc := FetchAccount(addr.value);
        r := Ok(acc);
      } else {
        r := Throw(addr.error);
      }
      Shape();
    }

    /** The payment of SELFDESTRUCT to the popped recipient. */
    method PayOut() returns (r: Exc<()>)
      requires Valid() && ctxt != null
      modifies ctxt.s, gs, gs.Objects(), tx
      ensures Valid() && gs.Grew() && Staged(old(View()))
      ensures ExecSelfdestruct(old(ctxt.View()), old(View().w))
              == if r.Ok? then Halted(View().w) else Threw(r.error, View().w)
    {
      hide SimpleGlobalState.Valid, SimpleGlobalState.Objects, AllPlaced, Apart, View, PayTo, GetAccount, WithLast,
           PopAddress, ExecSelfdestruct;
      Top();
      AccountInWorld(ctxt.acc);
      ghost var m, c := View(), ctxt.View();
      var recipient := FetchPopped();
      if recipient.Throw? {
        UnpaidOut(c, m.w, recipient.error);
        return Throw(recipient.error);
      }
      ghost var s := ctxt.View().s;
      r := PayAll(recipient.value);
      PaidOut(c, m.w, recipient.value.address, s, r, View().w);
    }

    /** Pays everything and notes the account for removal. */
    method PayAll(recipient: SimpleAccount) returns (r: Exc<()>)
      requires Valid() && ctxt != null && gs.Finds(recipient.address, recipient)
      modifies ctxt.acc`balance, recipient`balance, tx
      ensures Valid() && gs.accounts == old(gs.accounts)
      ensures View() == old(View()).(w := View().w) && ctxt.View() == old(ctxt.View())
      ensures PaidAll(old(View()).w, ctxt.acc.address, recipient.address)
              == if r.Ok? then Halted(View().w) else Threw(r.error, View().w)
    {
      hide SimpleGlobalState.Valid, SimpleGlobalState.Objects, AllPlaced, Apart, View, PayTo;
      Top();
      Shape();
      AccountInWorld(ctxt.acc);
      r := PayFrom(ctxt.acc, recipient, ctxt.acc.balance);
      if r.Ok? {
        AppendSelfdestruct(ctxt.acc.address);
      }
      Shape();
    }

    method Selfdestruct() returns (r: Exc<()>)
      requires Valid() && ctxt != null
      modifies this, ctxt.s, gs, gs.Objects(), tx, ParentParts()
      ensures Valid() && gs.Grew() && ctxts <= old(ctxts)
      ensures var m := old(View());
              m.ctxts != [] && Turned(SignalOf(r), m, View(), ExecSelfdestruct(m.ctxts[|m.ctxts| - 1], m.w))
    {
      hide SimpleGlobalState.Valid, AllPlaced, Apart, View, Below, Turned, HaltedInto, WithLast, ExecSelfdestruct;
      Shape();
      ghost var m := View();
      var paid := PayOut();
      Shape();
      if paid.Throw? {
        RaisedTurn(m, View(), Threw(paid.error, View().w));
        return paid;
      }
      ghost var w := View().w;
      r := Stop();
      ViewNested();
      HaltedTurn(r, m, View(), Halted(w));
    }

    // ----- Opcodes that neither enter nor leave a context -----

    method Local(ghost depth: nat) returns (sig: Signal)
      requires Valid() && ctxt != null && ctxt.pc < |ctxt.code| && IsLocal(ctxt.code[ctxt.pc])
      modifies ctxt, ctxt.s
      ensures Valid() && Staged(old(View())) && View().w == old(View()).w
      ensures Did(sig, ctxt.View(), View().w, Exec(env, depth, old(ctxt.View()), old(View()).w))
    {
      hide SimpleGlobalState.View, SimpleGlobalState.Valid, Views, AllPlaced, Apart, Exec, Did;
      Top();
      AccountInWorld(ctxt.acc);
      ghost var m := View();
      sig := LocalOperation(ctxt.code[ctxt.pc], env, ctxt, depth, m.w);
      assert gs.Objects() == old(gs.Objects());
      TopChanged(m);
    }

    method SStore() returns (r: Exc<()>)
      requires Valid() && ctxt != null
      modifies ctxt.s, ctxt.acc`storage
      ensures Valid() && Staged(old(View()))
      ensures Did(SignalOf(r), ctxt.View(), View().w, ExecWorld(SSTORE, old(ctxt.View()), old(View()).w))
    {
      hide SimpleGlobalState.Valid, Views, AllPlaced, Apart, WithLast;
      Top();
      AccountInWorld(ctxt.acc);
      ghost var m, v := View(), ctxt.acc.Value();
      var entry := PopEntry(ctxt.s);
      assert gs.Objects() == old(gs.Objects());
      TopChanged(m);
      if entry.Throw? {
        return Throw(entry.error);
      }
      StoreWord(entry.value.0, entry.value.1);
      return Ok(());
    }

    /** A zero removes the entry. */
    method StoreWord(k: Word, v: Word)
      requires Valid() && ctxt != null
      modifies ctxt.acc`storage
      ensures Valid() && ctxt.View() == old(ctxt.View())
      ensures var st := old(ctxt.acc.storage);
              View() == old(View()).(w := SetStorage(old(View()).w, ctxt.acc.address,
                                                     if v == 0 then st - {k} else st[k := v]))
    {
      hide SimpleGlobalState.Valid, Views, AllPlaced, Apart;
      Top();
      var acc := ctxt.acc;
      AccountInWorld(acc);
      ghost var before := gs.View();
      if v == 0 {
        acc.storage := acc.storage - {k};
      } else {
        acc.storage := acc.storage[k := v];
      }
      ValidAccounts();
      OneAccount(gs, before, acc);
      assert Views(ctxts) == old(Views(ctxts));
    }

    lemma ValidAccounts()
      requires Valid()
      ensures gs.Valid() && forall a :: a in gs.accounts ==> gs.accounts[a].address == a
    {
    }

    /** BALANCE and EXTCODESIZE. */
    method PushAbout(op: Byte) returns (r: Exc<()>)
      requires Valid() && ctxt != null && (op == BALANCE || op == EXTCODESIZE)
      modifies ctxt.s, gs
      ensures Valid() && gs.Grew() && Staged(old(View()))
      ensures Did(SignalOf(r), ctxt.View(), View().w, ExecWorld(op, old(ctxt.View()), old(View()).w))
    {
      hide SimpleGlobalState.Valid, SimpleGlobalState.Objects, AllPlaced, Apart, View, GetAccount, WithLast,
           PopAddress, ExecWorld, Did, Leaves;
      ghost var m, c := View(), ctxt.View();
      var other := FetchPopped();
      if other.Throw? {
        Unasked(op, c, ctxt.View(), m.w, other.error);
        return Throw(other.error);
      }
      ghost var c1, w1 := ctxt.View(), View().w;
      AccountInWorld(other.value);
      Shape();
      var v := if op == BALANCE then other.value.balance else |other.value.code|;
      r := PushOnTop(v);
      LastTwice(m, c1, w1, ctxt.View());
      AskedNumber(op, c, m.w, other.value.address, c1.s, v, r, ctxt.View());
    }

    method PushOnTop(v: Word) returns (r: Exc<()>)
      requires Valid() && ctxt != null
      modifies ctxt.s
      ensures Valid() && gs.accounts == old(gs.accounts) && View() == WithLast(old(View()), ctxt.View())
      ensures Leaves(r, ctxt.s.st, Push(old(ctxt.s.st), v))
    {
      hide SimpleGlobalState.View, SimpleGlobalState.Valid, Views, AllPlaced, Apart, WithLast;
      Top();
      ghost var m := View();
      r := ctxt.s.Push(v);
      assert gs.Objects() == old(gs.Objects());
      TopChanged(m);
    }

    method CopyOnTop(src: Vector) returns (r: Exc<()>)
      requires Valid() && ctxt != null
      modifies ctxt`mem, ctxt.s
      ensures Valid() && gs.accounts == old(gs.accounts) && View() == WithLast(old(View()), ctxt.View())
      ensures LeavesBoth(r, ctxt.s.st, ctxt.mem, CopyOp(old(ctxt.s.st), old(ctxt.mem), src))
    {
      hide SimpleGlobalState.View, SimpleGlobalState.Valid, Views, AllPlaced, Apart, WithLast, CopyOp;
      Top();
      ghost var m := View();
      r := CopyMemory(ctxt, src);
      assert gs.Objects() == old(gs.Objects());
      TopChanged(m);
    }

    method ExtCodeCopy() returns (r: Exc<()>)
      requires Valid() && ctxt != null
      modifies ctxt`mem, ctxt.s, gs
      ensures Valid() && gs.Grew() && Staged(old(View()))
      ensures Did(SignalOf(r), ctxt.View(), View().w, ExecWorld(EXTCODECOPY, old(ctxt.View()), old(View()).w))
    {
      hide SimpleGlobalState.Valid, SimpleGlobalState.Objects, AllPlaced, Apart, View, GetAccount, WithLast,
           PopAddress, CopyOp, ExecWorld, Did, LeavesBoth;
      ghost var m, c := View(), ctxt.View();
      var other := FetchPopped();
      if other.Throw? {
        Unasked(EXTCODECOPY, c, ctxt.View(), m.w, other.error);
        return Throw(other.error);
      }
      ghost var c1, w1 := ctxt.View(), View().w;
      AccountInWorld(other.value);
      Shape();
      r := CopyOnTop(other.value.code);
      LastTwice(m, c1, w1, ctxt.View());
      AskedCode(c, m.w, other.value.address, c1.s, r, ctxt.View());
    }

    // ----- Entering contexts -----

    /** The new account of CREATE, endowed by the running one. */
    method Endow(value: Word) returns (r: Exc<()>, newAcc: SimpleAccount)
      requires Valid() && ctxt != null
      modifies gs, gs.Objects()
      ensures Valid() && gs.Grew() && unchanged(this) && View() == old(View()).(w := View().w)
      ensures Endowed(env, old(View()).w, ctxt.acc.address, value, r, View().w)
      ensures gs.Finds(newAcc.address, newAcc) && newAcc.address == NewAddress(env, old(View()).w, ctxt.acc.address)
    {
      hide SimpleGlobalState.Valid, SimpleGlobalState.Objects, AllPlaced, Apart, View, CreateAccount, PayTo;
      Top();
      Shape();
      AccountInWorld(ctxt.acc);
      var addr := env.newAddress(ctxt.acc.address, ctxt.acc.nonce);
      newAcc := CreateInWorld(addr, value);
      Top();
      r := PayFrom(ctxt.acc, newAcc, value);
    }

    /** `push_context`, seen from the machine. */
    method Enter(caller: Word, acc: SimpleAccount, input: Vector, code: Vector, callValue: Word, handler: Handler)
      returns (r: Exc<()>)
      requires Valid() && ctxt != null && gs.Finds(acc.address, acc) && !handler.Top?
      requires handler.CallRet? ==> handler.offOut < TWO64 && handler.sizeOut < TWO64
      requires handler.CreateRet? ==> handler.addr == acc.address
      modifies `ctxts, `ctxt
      ensures Valid()
      ensures |old(ctxts)| >= MAX_CALL_DEPTH ==>
                r == Throw(OutOfBounds) && View() == old(View()) && ctxts == old(ctxts) && ctxt == old(ctxt)
      ensures |old(ctxts)| < MAX_CALL_DEPTH ==> r == Ok(())
      ensures r.Ok? ==>
                var child := NewCtx(caller, acc.address, input, code, callValue, handler);
                View() == old(View()).(ctxts := old(View()).ctxts + [child])
      ensures r.Ok? ==> ctxt != null && ctxts == old(ctxts) + [ctxt] && fresh(ctxt) && fresh(ctxt.s)
    {
      hide SimpleGlobalState.View, SimpleGlobalState.Valid, Views, AllPlaced, Apart;
      ghost var cs := ctxts;
      r := PushContext(caller, acc, input, code, callValue, handler);
      assert gs.Objects() == old(gs.Objects());
      assert Views(cs) == old(Views(cs));
      if r.Ok? { ViewsPush(cs, ctxt); }
    }

    method PopCreateOperands() returns (r: Exc<(Word, Vector)>)
      requires Valid() && ctxt != null
      modifies ctxt`mem, ctxt.s
      ensures Valid() && gs.accounts == old(gs.accounts) && View() == WithLast(old(View()), ctxt.View())
      ensures ctxt.View() == old(ctxt.View()).(s := ctxt.View().s, mem := ctxt.View().mem)
      ensures r.Ok? ==> CreateOperands(old(ctxt.View())) == Ok((r.value.0, ctxt.View().mem, r.value.1, ctxt.View().s))
      ensures r.Throw? ==> CreateOperands(old(ctxt.View())) == Throw(r.error)
    {
      hide SimpleGlobalState.View, SimpleGlobalState.Valid, Views, AllPlaced, Apart, WithLast, CreateOperands;
      Top();
      ghost var m := View();
      r := PopCreate(ctxt);
      assert gs.Objects() == old(gs.Objects());
      TopChanged(m);
    }

    /** A payment leaves the contexts as they were after the operands. */
    lemma PaidStage(m: Machine, m1: Machine, c: Ctx)
      requires Valid() && ctxts != [] && m.ctxts != [] && m1 == WithLast(m, c)
      requires c.handler == m.ctxts[|m.ctxts| - 1].handler && View() == m1.(w := View().w)
      ensures ctxt.View() == c && Staged(m)
    {
      hide SimpleGlobalState.Valid, AllPlaced, Apart, View;
      Shape();
    }

    /** CREATE up to the payment: the new account and the code to run. */
    method FundCreation(ghost depth: nat) returns (r: Exc<(SimpleAccount, Vector)>)
      requires Valid() && ctxt != null
      modifies ctxt`mem, ctxt.s, gs, gs.Objects()
      ensures Valid() && gs.Grew() && unchanged(this) && Staged(old(View()))
      ensures ExecCreate(env, depth, old(ctxt.View()), old(View()).w) ==
                if r.Throw? then Threw(r.error, View().w)
                else CreatePaid(depth, ctxt.View(), r.value.0.address, r.value.1, View().w)
      ensures r.Ok? ==> gs.Finds(r.value.0.address, r.value.0)
    {
      hide SimpleGlobalState.Valid, SimpleGlobalState.Objects, AllPlaced, Apart, View, CreateOperands, Endowed,
           NewAddress, WithLast, ExecCreate, CreatePaid;
      Shape();
      Top();
      AccountInWorld(ctxt.acc);
      ghost var m, c := View(), ctxt.View();
      var operands := PopCreateOperands();
      Shape();
      if operands.Throw? {
        Uncreated(env, depth, c, m.w, operands.error);
        return Throw(operands.error);
      }
      ghost var c1, m1 := ctxt.View(), View();
      var paid, newAcc := Endow(operands.value.0);
      Shape();
      PaidStage(m, m1, c1);
      Created(env, depth, c, m.w, operands.value.0, c1.mem, operands.value.1, c1.s, paid, View().w);
      return if paid.Ok? then Ok((newAcc, operands.value.1)) else Throw(paid.error);
    }

    method Create() returns (r: Exc<()>)
      requires Valid() && ctxt != null
      modifies this, ctxt`mem, ctxt.s, gs, gs.Objects()
      ensures Valid() && gs.Grew()
      ensures var m := old(View());
              m.ctxts != [] && Turned(SignalOf(r), m, View(), ExecCreate(env, |m.ctxts|, m.ctxts[|m.ctxts| - 1], m.w))
      ensures r.Throw? ==> ctxts == old(ctxts)
      ensures r.Ok? ==> ctxt != null && ctxts == old(ctxts) + [ctxt] && fresh(ctxt) && fresh(ctxt.s)
    {
      hide SimpleGlobalState.Valid, SimpleGlobalState.Objects, AllPlaced, Apart, View, WithLast, ExecCreate, Turned;
      Shape();
      ghost var m := View();
      var funded := FundCreation(|m.ctxts|);
      Shape();
      if funded.Throw? {
        RaisedTurn(m, View(), Threw(funded.error, View().w));
        return Throw(funded.error);
      }
      ghost var c, w, m2 := ctxt.View(), View().w, View();
      var addr := funded.value.0.address;
      r := Enter(ctxt.acc.address, funded.value.0, [], funded.value.1, 0, CreateRet(addr));
      ViewNested();
      ghost var child := NewCtx(c.acc, addr, [], funded.value.1, 0, CreateRet(addr));
      PushedTurn(r, m, m2, View(), CreatePaid(|m.ctxts|, c, addr, funded.value.1, w), c, child, w);
    }

    method PopCallOperands(op: Byte) returns (r: Exc<CallArgs>)
      requires Valid() && ctxt != null
      modifies ctxt.s
      ensures Valid() && gs.accounts == old(gs.accounts) && View() == WithLast(old(View()), ctxt.View())
      ensures ctxt.View() == old(ctxt.View()).(s := ctxt.View().s)
      ensures r == CallOperands(op, old(ctxt.View()).s) && (r.Ok? ==> r.value.s == ctxt.View().s)
    {
      hide SimpleGlobalState.View, SimpleGlobalState.Valid, Views, AllPlaced, Apart, WithLast, CallOperands;
      Top();
      ghost var m := View();
      r := PopCall(op, ctxt.s);
      assert gs.Objects() == old(gs.Objects());
      TopChanged(m);
    }

    method PayCallee(addr: Word, value: Word) returns (r: Exc<()>, callee: SimpleAccount)
      requires Valid() && ctxt != null
      modifies gs, gs.Objects()
      ensures Valid() && gs.Grew() && unchanged(this) && View() == old(View()).(w := View().w)
      ensures CalleePaid(old(View()).w, ctxt.acc.address, addr, value, r, View().w)
      ensures callee.address == addr && gs.Finds(addr, callee)
    {
      hide SimpleGlobalState.Valid, SimpleGlobalState.Objects, AllPlaced, Apart, View, GetAccount, PayTo;
      Top();
      Shape();
      AccountInWorld(ctxt.acc);
      callee := FetchAccount(addr);
      Top();
      r := PayFrom(ctxt.acc, callee, value);
    }

    /** A call up to the payment. */
    method ReachCallee(op: Byte, ghost depth: nat) returns (r: Exc<(CallArgs, SimpleAccount)>)
      requires Valid() && ctxt != null
      modifies ctxt.s, gs, gs.Objects()
      ensures Valid() && gs.Grew() && unchanged(this) && Staged(old(View()))
      ensures ExecCall(op, depth, old(ctxt.View()), old(View()).w) ==
                if r.Throw? then Threw(r.error, View().w) else CallPaid(op, depth, ctxt.View(), r.value.0, View().w)
      ensures r.Ok? ==> r.value.0.s == ctxt.View().s && r.value.1.address == r.value.0.addr
      ensures r.Ok? ==> gs.Finds(r.value.1.address, r.value.1)
    {
      hide SimpleGlobalState.Valid, SimpleGlobalState.Objects, AllPlaced, Apart, View, CallOperands, CalleePaid,
           WithLast, ExecCall, CallPaid;
      Shape();
      Top();
      AccountInWorld(ctxt.acc);
      ghost var m, c := View(), ctxt.View();
      var args := PopCallOperands(op);
      Shape();
      if args.Throw? {
        Unreached(op, depth, c, m.w, args.error);
        return Throw(args.error);
      }
      var a := args.value;
      if a.addr >= 1 && a.addr <= 8 {
        Reached(op, depth, c, m.w, a, Throw(NotImplemented), m.w);
        return Throw(NotImplemented);
      }
      var paid, callee := PayCallee(a.addr, a.value);
      Shape();
      Reached(op, depth, c, m.w, a, paid, View().w);
      return if paid.Ok? then Ok((a, callee)) else Throw(paid.error);
    }

    method TakeCallInput(a: CallArgs) returns (r: Exc<Vector>)
      requires Valid() && ctxt != null
      modifies ctxt`mem
      ensures Valid() && View() == WithLast(old(View()), ctxt.View())
      ensures ctxt.View() == old(ctxt.View()).(mem := ctxt.View().mem)
      ensures CallWindows(old(ctxt.View()).mem, a) == if r.Ok? then Ok((ctxt.View().mem, r.value)) else Throw(r.error)
    {
      hide SimpleGlobalState.View, SimpleGlobalState.Valid, Views, AllPlaced, Apart, WithLast, CallWindows;
      Top();
      ghost var m := View();
      r := TakeInput(ctxt, a);
      assert gs.Objects() == old(gs.Objects());
      TopChanged(m);
    }

    /** The three kinds of call differ in the caller, account and value of the new context. */
    method EnterCallee(op: Byte, a: CallArgs, callee: SimpleAccount, input: Vector, code: Vector) returns (r: Exc<()>)
      requires Valid() && ctxt != null && IsCall(op) && gs.Finds(callee.address, callee) && callee.address == a.addr
      modifies `ctxts, `ctxt
      ensures Valid()
      ensures |old(ctxts)| >= MAX_CALL_DEPTH ==> r == Throw(OutOfBounds) && View() == old(View())
      ensures |old(ctxts)| < MAX_CALL_DEPTH ==>
                && r == Ok(())
                && View() == old(View()).(ctxts := old(View()).ctxts + [Callee(op, old(ctxt.View()), a, input, code)])
      ensures r.Throw? ==> ctxts == old(ctxts)
      ensures r.Ok? ==> ctxt != null && ctxts == old(ctxts) + [ctxt] && fresh(ctxt) && fresh(ctxt.s)
    {
      hide SimpleGlobalState.Valid, AllPlaced, Apart, View;
      Top();
      var h := CallRet(a.offOut, a.sizeOut);
      if op == CALL {
        r := Enter(ctxt.acc.address, callee, input, code, a.value, h);
      } else if op == CALLCODE {
        r := Enter(ctxt.acc.address, ctxt.acc, input, code, a.value, h);
      } else {
        r := Enter(ctxt.caller, ctxt.acc, input, code, ctxt.callValue, h);
      }
    }

    /** A paid call of an account with code. */
    method RunCallee(op: Byte, a: CallArgs, callee: SimpleAccount) returns (r: Exc<()>)
      requires Valid() && ctxt != null && IsCall(op) && gs.Finds(callee.address, callee) && callee.address == a.addr
      requires ctxt.View().s == a.s && callee.code != []
      modifies this, ctxt`mem
      ensures Valid()
      ensures var m := old(View());
              m.ctxts != [] && Turned(SignalOf(r), m, View(), CallPaid(op, |m.ctxts|, m.ctxts[|m.ctxts| - 1], a, m.w))
      ensures SameOrPushed()
    {
      hide SimpleGlobalState.Valid, AllPlaced, Apart, View, WithLast, CallPaid, CallWindows, Turned, Callee, Lookup;
      Shape();
      CalleeCode(callee);
      ghost var m, c := View(), ctxt.View();
      var code := callee.code;
      var input := TakeCallInput(a);
      Shape();
      ghost var c1, m2 := ctxt.View(), View();
      CallEnters(op, |m.ctxts|, c, a, m.w, input, c1.mem);
      if input.Throw? {
        RaisedTurn(m, View(), Threw(input.error, m.w));
        return Throw(input.error);
      }
      r := EnterCallee(op, a, callee, input.value, code);
      ViewNested();
      SameCallee(op, c, c1, a, input.value, code);
      ghost var o := CallPaid(op, |m.ctxts|, c, a, m.w);
      PushedTurn(r, m, m2, View(), o, c1, Callee(op, c, a, input.value, code), m.w);
    }

    lemma SameCallee(op: Byte, c: Ctx, c1: Ctx, a: CallArgs, input: seq<Byte>, code: seq<Byte>)
      requires IsCall(op) && c1 == c.(mem := c1.mem)
      ensures Callee(op, c1, a, input, code) == Callee(op, c, a, input, code)
      ensures !Callee(op, c, a, input, code).handler.Top?
    {
    }

    /** A paid call, entered when there is code to run and successful at once when there is none. */
    method PaidCall(op: Byte, a: CallArgs, callee: SimpleAccount) returns (r: Exc<()>)
      requires Valid() && ctxt != null && IsCall(op) && gs.Finds(callee.address, callee) && callee.address == a.addr
      requires ctxt.View().s == a.s
      modifies this, ctxt`mem, ctxt.s
      ensures Valid() && gs.accounts == old(gs.accounts)
      ensures var m := old(View());
              m.ctxts != [] && Turned(SignalOf(r), m, View(), CallPaid(op, |m.ctxts|, m.ctxts[|m.ctxts| - 1], a, m.w))
      ensures SameOrPushed()
    {
      hide SimpleGlobalState.Valid, AllPlaced, Apart, View, WithLast, CallPaid, Turned;
      if |callee.code| == 0 {
        r := SucceedAtOnce(op, a, callee);
      } else {
        r := RunCallee(op, a, callee);
      }
    }

    /** No context was left, and a new one is on top if there is one. */
    twostate predicate SameOrPushed()
      reads this
    {
      ctxts == old(ctxts) || (ctxts == old(ctxts) + [ctxt] && fresh(ctxt) && ctxt != null && fresh(ctxt.s))
    }

    method Call(op: Byte) returns (r: Exc<()>)
      requires Valid() && ctxt != null && IsCall(op)
      modifies this, ctxt`mem, ctxt.s, gs, gs.Objects()
      ensures Valid() && gs.Grew()
      ensures var m := old(View());
              m.ctxts != [] && Turned(SignalOf(r), m, View(), ExecCall(op, |m.ctxts|, m.ctxts[|m.ctxts| - 1], m.w))
      ensures SameOrPushed()
    {
      hide SimpleGlobalState.Valid, SimpleGlobalState.Objects, AllPlaced, Apart, View, WithLast, ExecCall,
           CallPaid, Turned;
      Shape();
      ghost var m := View();
      var reached := ReachCallee(op, |m.ctxts|);
      Shape();
      if reached.Throw? {
        RaisedTurn(m, View(), Threw(reached.error, View().w));
        return Throw(reached.error);
      }
      ghost var c, w := ctxt.View(), View().w;
      var a, callee := reached.value.0, reached.value.1;
      r := PaidCall(op, a, callee);
      TurnedStaged(SignalOf(r), m, c, w, View(), CallPaid(op, |m.ctxts|, c, a, w));
    }

    /** A paid call of an account without code. */
    method SucceedAtOnce(op: Byte, a: CallArgs, callee: SimpleAccount) returns (r: Exc<()>)
      requires Valid() && ctxt != null && gs.Finds(callee.address, callee) && callee.address == a.addr
      requires ctxt.View().s == a.s && callee.code == []
      modifies ctxt.s
      ensures Valid() && gs.accounts == old(gs.accounts)
      ensures var m := old(View());
              m.ctxts != [] && Turned(SignalOf(r), m, View(), CallPaid(op, |m.ctxts|, m.ctxts[|m.ctxts| - 1], a, m.w))
    {
      hide SimpleGlobalState.Valid, AllPlaced, Apart, View, WithLast, Turned;
      Shape();
      AccountInWorld(callee);
      ghost var m, c := View(), ctxt.View();
      assert Lookup(m.w, a.addr).code == [];
      r := PushOnTop(1);
      Shape();
      LocalTurn(SignalOf(r), m, View(), CallPaid(op, |m.ctxts|, c, a, m.w), ctxt.View());
    }

    // ----- Dispatch -----

    method LocalOpcode() returns (sig: Signal)
      requires Valid() && ctxt != null && ctxt.pc < |ctxt.code| && IsLocal(ctxt.code[ctxt.pc])
      modifies ctxt, ctxt.s
      ensures Valid() && gs.accounts == old(gs.accounts)
      ensures var m := old(View());
              && m.ctxts != [] && m.ctxts[|m.ctxts| - 1] == old(ctxt.View())
              && Turned(sig, m, View(), Exec(env, |m.ctxts|, old(ctxt.View()), m.w))
    {
      hide SimpleGlobalState.Valid, AllPlaced, Apart, View, WithLast, Turned, Exec, Did;
      Shape();
      ghost var m, c := View(), ctxt.View();
      sig := Local(|m.ctxts|);
      Shape();
      LocalTurn(sig, m, View(), Exec(env, |m.ctxts|, c, m.w), ctxt.View());
    }

    method WorldOpcode(op: Byte) returns (r: Exc<()>)
      requires Valid() && ctxt != null && IsWorldOp(op)
      modifies ctxt`mem, ctxt.s, ctxt.acc`storage, gs
      ensures Valid() && gs.Grew()
      ensures var m := old(View());
              m.ctxts != [] && Turned(SignalOf(r), m, View(), ExecWorld(op, m.ctxts[|m.ctxts| - 1], m.w))
    {
      hide SimpleGlobalState.Valid, AllPlaced, Apart, View, WithLast, Turned, ExecWorld, Did;
      Shape();
      ghost var m, c := View(), ctxt.View();
      if op == SSTORE {
        r := SStore();
      } else if op == EXTCODECOPY {
        r := ExtCodeCopy();
      } else {
        r := PushAbout(op);
      }
      Shape();
      LocalTurn(SignalOf(r), m, View(), ExecWorld(op, c, m.w), ctxt.View());
    }

    /** The contexts are old ones or new objects. */
    twostate predicate Renewed()
      reads this
    {
      forall i :: 0 <= i < |ctxts| ==> ctxts[i] in old(ctxts) || (fresh(ctxts[i]) && fresh(ctxts[i].s))
    }

    /** Every object an opcode may write belongs to the interpreter. */
    lemma Covered()
      requires Valid() && ctxts != []
      ensures ParentParts() <= Objects() && gs.Objects() <= Objects() && Parts(ctxts) <= Objects()
      ensures this in Objects() && gs in Objects() && tx in Objects()
      ensures ctxt in Objects() && ctxt.s in Objects() && ctxt.acc in Objects()
    {
      Top();
      AccountInWorld(ctxt.acc);
      var parts := Parts(ctxts);
      assert ctxts[|ctxts| - 1] in parts && ctxts[|ctxts| - 1].s in parts;
      if |ctxts| > 1 {
        assert ctxts[|ctxts| - 2] in parts && ctxts[|ctxts| - 2].s in parts;
      }
    }

    /** Dispatches the opcode at the counter; the rest of the loop turn then makes one step of the machine. */
    method Dispatch() returns (sig: Signal)
      requires Valid() && ctxt != null && ctxt.pc < |ctxt.code|
      modifies Objects()
      ensures Valid() && gs.Grew() && Renewed()
      ensures var m := old(View());
              && m.ctxts != [] && m.ctxts[|m.ctxts| - 1] == old(ctxt.View())
              && Turned(sig, m, View(), Exec(env, |m.ctxts|, old(ctxt.View()), m.w))
    {
      hide SimpleGlobalState.Valid, SimpleGlobalState.Objects, SimpleGlobalState.Grew, Valid, Renewed, View,
           Turned, Parts, Objects, Exec, ParentParts;
      NoContexts();
      Covered();
      Shape();
      var op := ctxt.code[ctxt.pc];
      ghost var m, c := View(), ctxt.View();
      if IsLocal(op) {
        sig := LocalOpcode();
        SameGrew();
        PrefixRenewed();
      } else {
        ExecShared(env, |m.ctxts|, c, m.w);
        var r := SharedOpcode(op);
        sig := SignalOf(r);
      }
    }

    twostate lemma PrefixRenewed()
      requires ctxts <= old(ctxts)
      ensures Renewed()
    {
    }

    twostate lemma PushRenewed()
      requires ctxts == old(ctxts) || (ctxt != null && ctxts == old(ctxts) + [ctxt] && fresh(ctxt) && fresh(ctxt.s))
      ensures Renewed()
    {
    }

    twostate lemma SameGrew()
      requires gs.accounts == old(gs.accounts)
      ensures gs.Grew()
    {
    }

    /** The opcodes that reach beyond the running context. */
    method SharedOpcode(op: Byte) returns (r: Exc<()>)
      requires Valid() && ctxt != null && !IsLocal(op)
      modifies Objects()
      ensures Valid() && gs.Grew() && Renewed()
      ensures var m := old(View());
              && m.ctxts != []
              && Turned(SignalOf(r), m, View(), ExecOther(op, env, |m.ctxts|, m.ctxts[|m.ctxts| - 1], m.w))
    {
      hide SimpleGlobalState.Valid, SimpleGlobalState.Objects, SimpleGlobalState.Grew, Valid, Renewed, View,
           Turned, Parts, Objects, ParentParts;
      hide ExecWorld, ExecReturn, ExecSelfdestruct, ExecCreate, ExecCall;
      NoContexts();
      Covered();
      Shape();
      if IsWorldOp(op) {
        r := WorldOpcode(op);
        PrefixRenewed();
      } else if op == RETURN {
        r := Return();
        SameGrew();
        PrefixRenewed();
      } else if op == STOP {
        r := Halt();
        SameGrew();
        PrefixRenewed();
      } else if op == SELFDESTRUCT {
        r := Selfdestruct();
        PrefixRenewed();
      } else if op == CREATE {
        r := Create();
        PushRenewed();
      } else {
        r := Call(op);
        PushRenewed();
      }
    }

    // ----- The run loop -----

    method StepTop()
      requires Valid() && ctxt != null
      modifies ctxt`pc, ctxt`pcChanged
      ensures Valid() && gs.accounts == old(gs.accounts)
      ensures View() == WithLast(old(View()), StepPc(old(ctxt.View())))
    {
      hide SimpleGlobalState.View, SimpleGlobalState.Valid, Views, AllPlaced, Apart, WithLast;
      Top();
      ghost var m := View();
      ctxt.Step();
      assert gs.Objects() == old(gs.Objects());
      TopChanged(m);
    }

    /** After a handler the loop ends without a context or steps the one that is now on top. */
    method Proceed() returns (t: Progress)
      requires Valid()
      modifies if ctxt == null then {} else {ctxt}
      ensures Valid() && gs.accounts == old(gs.accounts)
      ensures Shown(t, View(), Resume(old(View()))) && (t.GoesOn? ==> ctxt != null)
    {
      hide SimpleGlobalState.Valid, AllPlaced, Apart, View;
      ghost var m := View();
      NoContexts();
      if ctxt == null {
        return Ended;
      }
      Shape();
      StepTop();
      return GoesOn;
    }

    lemma NoContexts()
      requires Valid()
      ensures ctxt == null <==> View().ctxts == []
      ensures ctxt == null <==> ctxts == []
    {
    }

    /** The catch block, if something was raised, and the step. */
    method FinishTurn(sig: Signal) returns (t: Progress)
      requires Valid() && (sig.Raised? ==> ctxt != null)
      modifies this, ParentParts(), if ctxt == null then {} else {ctxt}
      ensures Valid() && gs.accounts == old(gs.accounts) && ctxts <= old(ctxts)
      ensures var m := old(View());
              && (m.ctxts != [] ==> Nested(m.ctxts)) && (sig.Raised? ==> m.ctxts != [])
              && Shown(t, View(), Rest(sig, m)) && (t.GoesOn? ==> ctxt != null)
    {
      hide SimpleGlobalState.Valid, AllPlaced, Apart, View, Below, Resume, OnException;
      ViewNested();
      NoContexts();
      if sig.Foreign? {
        return Left;
      }
      if sig.Raised? {
        Shape();
        Top();
        var r := Catch(sig.error);
        if r.Throw? {
          return Left;
        }
      }
      t := Proceed();
    }

    method FallOffEnd() returns (t: Progress)
      requires Valid() && ctxt != null && ctxt.pc >= |ctxt.code|
      modifies this, ParentParts()
      ensures Valid() && gs.accounts == old(gs.accounts) && ctxts <= old(ctxts)
      ensures var m := old(View());
              m.ctxts != [] && Nested(m.ctxts) && Shown(t, View(), Step(env, m)) && !t.GoesOn?
    {
      hide SimpleGlobalState.Valid, AllPlaced, Apart, View, Below, HaltedInto, FallOff;
      Shape();
      ghost var m := View();
      var halted := Stop();
      HaltedFallOff(halted, m, View());
      return if halted.Ok? then Ended else Left;
    }

    /** The contexts a handler may write are old objects of the interpreter or new ones. */
    twostate lemma OwnedStill()
      requires Valid() && Renewed()
      ensures forall o :: o in ParentParts() ==> o in Parts(old(ctxts)) || fresh(o)
      ensures ctxt != null ==> ctxt in Parts(old(ctxts)) || fresh(ctxt)
    {
      if ctxts != [] {
        Top();
        assert ctxts[|ctxts| - 1] == ctxt;
        if |ctxts| > 1 { assert ctxts[|ctxts| - 2] == ctxt.parent; }
      }
    }

    twostate lemma OwnedAll()
      requires Renewed() && gs.Grew()
      ensures forall o :: o in Objects() ==> o in old(Objects()) || fresh(o)
    {
    }

    /** One turn of the loop. Code that has run out is halted outside the try block. */
    method Turn() returns (t: Progress)
      requires Valid() && ctxt != null
      modifies Objects()
      ensures Valid() && forall o :: o in Objects() ==> o in old(Objects()) || fresh(o)
      ensures var m := old(View());
              m.ctxts != [] && Nested(m.ctxts) && Shown(t, View(), Step(env, m)) && (t.GoesOn? ==> ctxt != null)
    {
      hide SimpleGlobalState.Valid, SimpleGlobalState.Objects, AllPlaced, Apart, View, Below, Turned, Parts,
           Objects, Rest, HaltedInto;
      Covered();
      Shape();
      ghost var m := View();
      if ctxt.pc >= |ctxt.code| {
        t := FallOffEnd();
        OwnedAll();
        return;
      }
      var sig := Dispatch();
      TurnIsStep(env, sig, m, View());
      NoContexts();
      OwnedStill();
      t := FinishTurn(sig);
      OwnedAll();
    }

    /** At most `n` turns of the loop are `n` steps of the machine. */
    method RunFor(n: nat) returns (t: Progress)
      requires Valid() && ctxt != null
      modifies Objects()
      ensures Valid()
      ensures var m := old(View()); m.ctxts != [] && Nested(m.ctxts) && Shown(t, View(), Run(env, m, n))
    {
      hide SimpleGlobalState.Valid, SimpleGlobalState.Objects, AllPlaced, Apart, View, Parts, Objects, Step;
      Shape();
      ghost var m := View();
      t := GoesOn;
      var i := n;
      while i > 0 && t.GoesOn?
        invariant Valid() && (t.GoesOn? ==> ctxt != null)
        invariant forall o :: o in Objects() ==> o in old(Objects()) || fresh(o)
        invariant if t.GoesOn? then View().ctxts != [] && Nested(View().ctxts) && Run(env, m, n) == Run(env, View(), i)
                  else Shown(t, View(), Run(env, m, n))
        decreases i
      {
        t := Turn();
        i := i - 1;
        NoContexts();
      }
    }

    /** `run`, for at most `n` turns of its loop: what it delivers is what the machine started on the same
        world delivers; an ended run leaves the cleaned-up world, and one left by an exception its world. */
    method Execute(caller: Word, callee: SimpleAccount, input: Vector, callValue: Word, n: nat) returns (t: Progress)
      requires Valid() && ctxts == [] && gs.Finds(callee.address, callee)
      modifies Objects()
      ensures var st := Run(env, Start(caller, callee.address, input, callValue, old(WorldView())), n);
              && (t.GoesOn? <==> st.Running?) && (t.Ended? <==> st.Finished?)
              && (t.Ended? ==> result == st.m.result && gs.View() == CleanUp(st.m.w).accounts)
              && (t.Left? ==> WorldView() == st.w)
    {
      hide SimpleGlobalState.Valid, SimpleGlobalState.Objects, AllPlaced, Apart, Parts, Objects, Run;
      assert this in Objects() && gs in Objects() by { Owned(); }
      Launch(caller, callee, input, callValue);
      OwnedAll();
      t := RunFor(n);
      if t.Ended? {
        RemoveDestructed();
      }
    }

    lemma Owned()
      ensures this in Objects() && gs in Objects()
    {
    }

    /** Pushes the first context. */
    method Launch(caller: Word, callee: SimpleAccount, input: Vector, callValue: Word)
      requires Valid() && ctxts == [] && gs.Finds(callee.address, callee)
      modifies this
      ensures Valid() && ctxt != null && gs.Grew() && Renewed()
      ensures View() == Start(caller, callee.address, input, callValue, old(WorldView()))
    {
      hide SimpleGlobalState.View, SimpleGlobalState.Valid, Views, AllPlaced, Apart;
      AccountInWorld(callee);
      ghost var w := WorldView();
      result := ExecResult(ExitReturned, OutOfBounds, []);
      var _ := PushContext(caller, callee, input, callee.code, callValue, Handler.Top);
      assert gs.Objects() == old(gs.Objects());
      assert ctxts == [ctxt];
    }

    method RemoveDestructed()
      requires Valid()
      modifies gs
      ensures gs.View() == CleanUp(old(WorldView())).accounts
    {
      hide SimpleGlobalState.View;
      ghost var w := WorldView();
      var i := 0;
      while i < |tx.selfdestructList|
        invariant gs.Valid() && i <= |w.destructs| && w.destructs == tx.selfdestructList
        invariant gs.View() == map a | a in w.accounts && a !in w.destructs[..i] :: w.accounts[a]
      {
        gs.Remove(tx.selfdestructList[i]);
        assert w.destructs[..i + 1] == w.destructs[..i] + [w.destructs[i]];
        i := i + 1;
      }
      assert w.destructs[..i] == w.destructs;
    }
  }
}
