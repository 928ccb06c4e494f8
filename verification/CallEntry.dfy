/** Calls, creations and payments, told from the operand words: when a child is entered, for whom, with
    which code, input and value, and who is paid. */
module CallEntry {
  import opened Words
  import opened Bytecode
  import opened Alu
  import opened Evm
  import opened EvmShape
  import opened WordOpcodes
  import opened ContextOpcodes

  // ----- Payments -----

  /** `w1` is `w` after `from` has paid `v` to `to`: nothing else has changed, and the receiver's new balance
      is written last. */
  ghost predicate Paid(w: World, w1: World, from: Word, to: Word, v: Word) {
    && w1.destructs == w.destructs && w1.accounts.Keys == w.accounts.Keys + {from, to}
    && forall x :: x in w1.accounts ==>
         var b, a := Lookup(w, x), w1.accounts[x];
         && a.code == b.code && a.nonce == b.nonce && a.storage == b.storage
         && a.balance == if x == to then b.balance + v else if x == from then b.balance - v else b.balance
  }

  /** A payment is refused exactly for a balance below the amount or a receiver it would overflow. */
  lemma Payment(w: World, from: Word, to: Word, v: Word)
    ensures PayTo(w, from, to, v)
            == if v > Lookup(w, from).balance then Throw(OutOfFunds)
               else if Lookup(w, to).balance + v >= TWO256 then Throw(OverflowError)
               else Ok(PayTo(w, from, to, v).value)
    ensures PayTo(w, from, to, v).Ok? ==> Paid(w, PayTo(w, from, to, v).value, from, to, v)
  {
  }

  // ----- Calls -----

  /** All operands of a call but the first two have to fit 64 bits. */
  predicate SmallOperands(op: Byte, s: seq<Word>)
    requires |s| >= OperandCount(op)
  {
    forall i :: 2 <= i < OperandCount(op) ==> s[i] < TWO64
  }

  /** The value a call pays. */
  function CallValue(op: Byte, s: seq<Word>): Word
    requires |s| >= 6
  {
    if op == DELEGATECALL then 0 else s[2]
  }

  /** The child of a call by `c` in the world `w`; `g` is the memory of the caller as it waits. CALL runs
      the code of the called account for that account, CALLCODE and DELEGATECALL for the caller's;
      DELEGATECALL hands on the caller's own caller and value. */
  predicate ChildOfCall(op: Byte, c: Ctx, w: World, g: seq<Byte>, child: Ctx)
    requires IsCall(op) && |c.s| >= OperandCount(op)
  {
    var k, a := OperandCount(op), c.s[1] % TWO160;
    var off: nat, size: nat := c.s[k - 4], c.s[k - 3];
    && child.code == Lookup(w, a).code && child.code != []
    && child.acc == (if op == CALL then a else c.acc)
    && child.caller == (if op == DELEGATECALL then c.caller else c.acc)
    && child.callValue == (if op == DELEGATECALL then c.callValue else c.s[2])
    && off + size <= |g| && child.input == g[off..off + size]
    && child.handler == CallRet(c.s[k - 2], c.s[k - 1])
  }

  /** Everything a call can come to, in the order in which the code decides it. */
  ghost predicate CallComesTo(depth: nat, c: Ctx, w: World, o: Outcome, w1: World)
    requires c.pc < |c.code| && IsCall(c.code[c.pc]) && |c.s| >= OperandCount(c.code[c.pc])
  {
    var op := c.code[c.pc];
    var k, a, v := OperandCount(op), c.s[1] % TWO160, CallValue(op, c.s);
    if !SmallOperands(op, c.s) then o == Threw(OutOfBounds, w)
    else if 1 <= a <= 8 then o == Threw(NotImplemented, w)
    else if v > Lookup(w, c.acc).balance then o == Threw(OutOfFunds, Known(w, a))
    else if Lookup(w, a).balance + v >= TWO256 then o == Threw(OverflowError, Known(w, a))
    else
      && Paid(Known(w, a), w1, c.acc, a, v)
      && if Lookup(w, a).code == [] then Pushes(o, c, w1, k, 1)
         else if !Accessible(c.s[k - 2], c.s[k - 1]) || !Accessible(c.s[k - 4], c.s[k - 3]) || depth >= MAX_CALL_DEPTH
           then o == Threw(OutOfBounds, w1)
         else
           && o.Entered? && o.w == w1 && o.c == c.(s := c.s[k..], mem := o.c.mem)
           && Covers(Grown(c.mem, c.s[k - 2] + c.s[k - 1]), o.c.mem, c.s[k - 4] + c.s[k - 3])
           && Fresh(o.child) && ChildOfCall(op, c, w, o.c.mem, o.child)
  }

  /** A memory that has grown to at least `n` bytes. */
  function Grown(mem: seq<Byte>, n: nat): seq<Byte> {
    if |mem| >= n then mem else mem + Zeros(n - |mem|)
  }

  lemma CallLaw(env: Env, depth: nat, c: Ctx, w: World) returns (w1: World)
    requires c.pc < |c.code| && IsCall(c.code[c.pc]) && |c.s| >= OperandCount(c.code[c.pc])
    ensures CallComesTo(depth, c, w, Exec(env, depth, c, w), w1)
  {
    hide Exec, CallPaid, CallOperands, GetAccount, Known, PayTo, Paid, Covers, Grown, ChildOfCall, SmallOperands,
         Accessible, Pushes;
    var op := c.code[c.pc];
    w1 := w;
    CallDispatch(env, depth, c, w);
    CallWords(op, c.s);
    var r := CallOperands(op, c.s);
    if r.Ok? && !(1 <= r.value.addr <= 8) {
      var a := r.value;
      GetIsKnown(w, a.addr);
      SameLookups(w, a.addr);
      Payment(Known(w, a.addr), c.acc, a.addr, a.value);
      var paid := PayTo(Known(w, a.addr), c.acc, a.addr, a.value);
      if paid.Ok? {
        w1 := paid.value;
        PaidCode(Known(w, a.addr), w1, c.acc, a.addr, a.value);
        PaidOutcome(op, depth, c, a, w, w1);
      }
    }
  }

  lemma CallDispatch(env: Env, depth: nat, c: Ctx, w: World)
    requires c.pc < |c.code| && IsCall(c.code[c.pc])
    ensures Exec(env, depth, c, w) == ExecCall(c.code[c.pc], depth, c, w)
  {
    hide ExecCall;
  }

  lemma SameLookups(w: World, a: Word)
    ensures forall x :: Lookup(Known(w, a), x) == Lookup(w, x)
  {
  }

  lemma PaidCode(w: World, w1: World, from: Word, to: Word, v: Word)
    requires Paid(w, w1, from, to, v)
    ensures Lookup(w1, to).code == Lookup(w, to).code
  {
  }

  /** The operands by their places on the stack. */
  lemma CallWords(op: Byte, s: seq<Word>)
    requires IsCall(op) && |s| >= OperandCount(op)
    ensures var k := OperandCount(op);
            CallOperands(op, s)
            == if !SmallOperands(op, s) then Throw(OutOfBounds)
               else Ok(CallArgs(s[1] % TWO160, CallValue(op, s), s[k - 4], s[k - 3], s[k - 2], s[k - 1], s[k..]))
  {
    hide WindowOperands, CallOperands, SmallOperands;
    var n := OperandCount(op) - 4;
    FirstWords(op, s);
    SmallWords(op, s, n);
    WindowWords(s[n..], s[1] % TWO160, CallValue(op, s) % TWO64);
    assert s[n..][4..] == s[n + 4..];
  }

  lemma SmallWords(op: Byte, s: seq<Word>, n: nat)
    requires IsCall(op) && |s| >= OperandCount(op) && n == OperandCount(op) - 4
    ensures SmallOperands(op, s) <==>
              && (op == DELEGATECALL || s[2] < TWO64)
              && s[n] < TWO64 && s[n + 1] < TWO64 && s[n + 2] < TWO64 && s[n + 3] < TWO64
  {
  }

  /** The four operands that name the windows. */
  function WindowOperands(s: seq<Word>, addr: Word, value: U64): Exc<CallArgs> {
    var (offIn, s1) :- Pop64(s);
    var (sizeIn, s2) :- Pop64(s1);
    var (offOut, s3) :- Pop64(s2);
    var (sizeOut, s4) :- Pop64(s3);
    Ok(CallArgs(addr, value, offIn, sizeIn, offOut, sizeOut, s4))
  }

  lemma WindowWords(s: seq<Word>, addr: Word, value: U64)
    requires |s| >= 4
    ensures WindowOperands(s, addr, value)
            == if s[0] >= TWO64 || s[1] >= TWO64 || s[2] >= TWO64 || s[3] >= TWO64 then Throw(OutOfBounds)
               else Ok(CallArgs(addr, value, s[0], s[1], s[2], s[3], s[4..]))
  {
    assert s[1..][1..] == s[2..] && s[2..][1..] == s[3..] && s[3..][1..] == s[4..];
  }

  lemma FirstWords(op: Byte, s: seq<Word>)
    requires IsCall(op) && |s| >= OperandCount(op)
    ensures op == DELEGATECALL ==> CallOperands(op, s) == WindowOperands(s[2..], s[1] % TWO160, 0)
    ensures op != DELEGATECALL ==>
              CallOperands(op, s)
              == if s[2] >= TWO64 then Throw(OutOfBounds) else WindowOperands(s[3..], s[1] % TWO160, s[2])
  {
    assert s[1..][1..] == s[2..] && s[2..][1..] == s[3..];
  }

  lemma PaidOutcome(op: Byte, depth: nat, c: Ctx, a: CallArgs, w: World, w1: World)
    requires c.pc < |c.code| && op == c.code[c.pc] && IsCall(op) && |c.s| >= OperandCount(op)
    requires CallOperands(op, c.s) == Ok(a) && Lookup(w1, a.addr).code == Lookup(w, a.addr).code
    ensures var o, k := CallPaid(op, depth, c, a, w1), OperandCount(op);
            if Lookup(w, c.s[1] % TWO160).code == [] then Pushes(o, c, w1, k, 1)
            else if !Accessible(c.s[k - 2], c.s[k - 1]) || !Accessible(c.s[k - 4], c.s[k - 3])
                    || depth >= MAX_CALL_DEPTH
              then o == Threw(OutOfBounds, w1)
            else
              && o.Entered? && o.w == w1 && o.c == c.(s := c.s[k..], mem := o.c.mem)
              && Covers(Grown(c.mem, c.s[k - 2] + c.s[k - 1]), o.c.mem, c.s[k - 4] + c.s[k - 3])
              && Fresh(o.child) && ChildOfCall(op, c, w, o.c.mem, o.child)
  {
    CallWords(op, c.s);
    hide CallOperands, SmallOperands;
  }

  // ----- Creations -----

  /** The world in which a creation pays its endowment: an account that is not there yet starts with the
      endowment as its balance. */
  function Founded(w: World, a: Word, v: Word): World {
    if a in w.accounts then w else w.(accounts := w.accounts[a := Account(v, [], 0, map[])])
  }

  /** Everything CREATE can come to, in the order in which the code decides it. */
  ghost predicate CreateComesTo(env: Env, depth: nat, c: Ctx, w: World, o: Outcome, w1: World)
    requires |c.s| >= 3
  {
    var v, off, size := c.s[0], c.s[1], c.s[2];
    var a := env.newAddress(c.acc, Lookup(w, c.acc).nonce);
    var w0 := Founded(w, a, v);
    if size >= TWO64 || !Accessible(off, size) then o == Threw(OutOfBounds, w)
    else if v > Lookup(w0, c.acc).balance then o == Threw(OutOfFunds, w0)
    else if Lookup(w0, a).balance + v >= TWO256 then o == Threw(OverflowError, w0)
    else
      && Paid(w0, w1, c.acc, a, v)
      && if depth >= MAX_CALL_DEPTH then o == Threw(OutOfBounds, w1)
         else
           && o.Entered? && o.w == w1 && o.c == c.(s := c.s[3..], mem := o.c.mem)
           && Covers(c.mem, o.c.mem, off + size)
           && Fresh(o.child) && ChildOfCreate(env, c, w, o.c.mem, o.child)
  }

  /** The child of a creation runs the bytes of the range for the new account, without input and value. */
  predicate ChildOfCreate(env: Env, c: Ctx, w: World, g: seq<Byte>, child: Ctx)
    requires |c.s| >= 3
  {
    var off: nat, size: nat := c.s[1], c.s[2];
    && child.acc == env.newAddress(c.acc, Lookup(w, c.acc).nonce)
    && child.caller == c.acc && child.callValue == 0 && child.input == []
    && off + size <= |g| && child.code == g[off..off + size]
    && child.handler == CreateRet(child.acc)
  }

  lemma CreateLaw(env: Env, depth: nat, c: Ctx, w: World) returns (w1: World)
    requires AtOpcode(c, CREATE) && |c.s| >= 3
    ensures CreateComesTo(env, depth, c, w, Exec(env, depth, c, w), w1)
  {
    hide Exec, CreateOperands, CreateAccount, PayTo, Paid, Founded, Covers, Accessible;
    var a := env.newAddress(c.acc, Lookup(w, c.acc).nonce);
    var w0 := Founded(w, a, c.s[0]);
    CreateDispatch(env, depth, c, w, a);
    CreateWords(c);
    Payment(w0, c.acc, a, c.s[0]);
    var paid := PayTo(w0, c.acc, a, c.s[0]);
    w1 := if paid.Ok? then paid.value else w;
  }

  lemma CreateDispatch(env: Env, depth: nat, c: Ctx, w: World, a: Word)
    requires AtOpcode(c, CREATE) && |c.s| >= 3
    ensures Exec(env, depth, c, w) == ExecCreate(env, depth, c, w)
    ensures CreateAccount(w, a, c.s[0], []) == Founded(w, a, c.s[0])
  {
    hide ExecCreate;
  }

  lemma CreateWords(c: Ctx)
    requires |c.s| >= 3
    ensures var r, off, size := CreateOperands(c), c.s[1], c.s[2];
            if size >= TWO64 || !Accessible(off, size) then r == Throw(OutOfBounds)
            else
              && r.Ok? && r.value.0 == c.s[0] && r.value.3 == c.s[3..]
              && Covers(c.mem, r.value.1, off + size) && r.value.2 == r.value.1[off..off + size]
  {
    assert c.s[1..][1..] == c.s[2..] && c.s[2..][1..] == c.s[3..];
  }

  // ----- Self-destruction -----

  /** SELFDESTRUCT pays the whole balance of the running account to the address in the low 160 bits,
      notes the running account and halts; a receiver that would overflow makes it throw. */
  lemma SelfdestructLaw(env: Env, depth: nat, c: Ctx, w: World) returns (w1: World)
    requires AtOpcode(c, SELFDESTRUCT) && c.s != []
    ensures var o, a, v := Exec(env, depth, c, w), c.s[0] % TWO160, Lookup(w, c.acc).balance;
            if Lookup(w, a).balance + v >= TWO256 then o == Threw(OverflowError, Known(w, a))
            else Paid(Known(w, a), w1, c.acc, a, v) && o == Halted(w1.(destructs := w.destructs + [c.acc]))
  {
    var a, v := c.s[0] % TWO160, Lookup(w, c.acc).balance;
    GetIsKnown(w, a);
    SameLookups(w, a);
    Payment(Known(w, a), c.acc, a, v);
    var paid := PayTo(Known(w, a), c.acc, a, v);
    w1 := if paid.Ok? then paid.value else w;
    assert paid.Ok? ==> w1.destructs == w.destructs;
    hide GetAccount, PayTo, Paid, Known;
  }

  // ----- What every entered child is -----

  /** The child of a call or creation, from the words of its parent's operands. */
  predicate ChildOf(env: Env, c: Ctx, w: World, p: Ctx, child: Ctx)
    requires c.pc < |c.code|
  {
    var op := c.code[c.pc];
    if op == CREATE then |c.s| >= 3 && ChildOfCreate(env, c, w, p.mem, child)
    else IsCall(op) && |c.s| >= OperandCount(op) && ChildOfCall(op, c, w, p.mem, child)
  }

  lemma EnteredChild(env: Env, depth: nat, c: Ctx, w: World)
    requires c.pc < |c.code|
    ensures var o := Exec(env, depth, c, w); o.Entered? ==> ChildOf(env, c, w, o.c, o.child)
  {
    hide Exec, Waiting, Lineage, HandlerFits, Fresh, Paid, Covers, ChildOfCall, ChildOfCreate, Known, SmallOperands,
         Accessible;
    var o := Exec(env, depth, c, w);
    if o.Entered? {
      EnteredShape(env, depth, c, w);
      EnteredOperands(c, o.c);
      if c.code[c.pc] == CREATE { var _ := CreateLaw(env, depth, c, w); } else { var _ := CallLaw(env, depth, c, w); }
    }
  }

  lemma EnteredOperands(c: Ctx, p: Ctx)
    requires c.pc < |c.code| && Waiting(c.code[c.pc], c, p)
    ensures |c.s| >= OperandCount(c.code[c.pc])
  {
  }

  /** It depends only on what a running child never changes. */
  lemma StillChildOf(env: Env, c: Ctx, w: World, p: Ctx, child: Ctx, later: Ctx)
    requires c.pc < |c.code| && ChildOf(env, c, w, p, child) && SameFrame(child, later)
    ensures ChildOf(env, c, w, p, later)
  {
  }
}
