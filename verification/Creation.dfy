/** Creations over whole runs: the returned bytes become the code of the new account, stay it, and are what
    a later call runs; the address of a creation depends on the creating account alone. */
module Creation {
  import opened Words
  import opened Bytecode
  import opened Alu
  import opened Evm
  import opened EvmShape
  import opened EvmInvariant
  import opened WordOpcodes
  import opened ContextOpcodes
  import opened CallEntry
  import opened CallResume
  import opened Origins

  // ----- No opcode touches codes and nonces -----

  /** Codes and nonces are as they were, a missing account counting as empty. */
  ghost predicate SameCodes(w: World, w1: World) {
    forall x :: Lookup(w1, x).code == Lookup(w, x).code && Lookup(w1, x).nonce == Lookup(w, x).nonce
  }

  lemma PaidCodes(w: World, w1: World, from: Word, to: Word, v: Word)
    requires Paid(w, w1, from, to, v)
    ensures SameCodes(w, w1)
  {
  }

  lemma KnownCodes(w: World, a: Word)
    ensures SameCodes(w, Known(w, a))
  {
  }

  lemma FoundedCodes(w: World, a: Word, v: Word)
    ensures SameCodes(w, Founded(w, a, v))
  {
  }

  lemma CodesTwice(w: World, w1: World, w2: World)
    requires SameCodes(w, w1) && SameCodes(w1, w2)
    ensures SameCodes(w, w2)
  {
  }

  /** No outcome of an opcode, throwing or not, has touched a code or a nonce. */
  lemma ExecCodes(env: Env, depth: nat, c: Ctx, w: World)
    requires c.pc < |c.code|
    ensures SameCodes(w, Exec(env, depth, c, w).w)
  {
    hide ExecPush, ExecJump, MemoryOp, StackOp, ExecLoad, ExecWorld, ExecReturn, ExecSelfdestruct, ExecCreate, ExecCall,
         SameCodes;
    var op := c.code[c.pc];
    SelfCodes(w);
    if |c.s| < Operands(op) {
      KnownIfAsked(c, w);
      TooFewOperands(env, depth, c, w);
    } else if IsWorldOp(op) {
      WorldOpCodes(op, c, w);
    } else if op == SELFDESTRUCT {
      SelfdestructCodes(env, depth, c, w);
    } else if op == CREATE {
      CreateCodes(env, depth, c, w);
    } else if IsCall(op) {
      CallCodes(env, depth, c, w);
    } else {
      SameWorld(env, depth, c, w);
    }
  }

  lemma SelfCodes(w: World)
    ensures SameCodes(w, w)
  {
  }

  lemma KnownIfAsked(c: Ctx, w: World)
    requires c.pc < |c.code|
    ensures c.s != [] ==> SameCodes(w, Known(w, c.s[0] % TWO160))
  {
    if c.s != [] { KnownCodes(w, c.s[0] % TWO160); }
  }

  lemma WorldOpCodes(op: Byte, c: Ctx, w: World)
    requires IsWorldOp(op) && |c.s| >= Operands(op)
    ensures SameCodes(w, ExecWorld(op, c, w).w)
  {
    hide CopyOp, GetAccount;
    GetIsKnown(w, c.s[0] % TWO160);
    KnownCodes(w, c.s[0] % TWO160);
  }

  lemma SelfdestructCodes(env: Env, depth: nat, c: Ctx, w: World)
    requires AtOpcode(c, SELFDESTRUCT) && c.s != []
    ensures SameCodes(w, Exec(env, depth, c, w).w)
  {
    hide Exec, Paid, Known, SameCodes;
    var a := c.s[0] % TWO160;
    KnownCodes(w, a);
    var w1 := SelfdestructLaw(env, depth, c, w);
    if Lookup(w, a).balance + Lookup(w, c.acc).balance < TWO256 {
      PaidCodes(Known(w, a), w1, c.acc, a, Lookup(w, c.acc).balance);
      CodesTwice(w, Known(w, a), w1);
      OtherDestructs(w, w1, w.destructs + [c.acc]);
    }
  }

  lemma OtherDestructs(w: World, w1: World, l: seq<Word>)
    requires SameCodes(w, w1)
    ensures SameCodes(w, w1.(destructs := l))
  {
    forall x
      ensures Lookup(w1.(destructs := l), x) == Lookup(w1, x)
    {
    }
  }

  lemma CreateCodes(env: Env, depth: nat, c: Ctx, w: World)
    requires AtOpcode(c, CREATE) && |c.s| >= 3
    ensures SameCodes(w, Exec(env, depth, c, w).w)
  {
    hide Exec, Paid, Founded, SameCodes, Covers, Accessible, ChildOfCreate, Fresh;
    var a := env.newAddress(c.acc, Lookup(w, c.acc).nonce);
    var w0 := Founded(w, a, c.s[0]);
    SelfCodes(w);
    FoundedCodes(w, a, c.s[0]);
    var w1 := CreateLaw(env, depth, c, w);
    if Paid(w0, w1, c.acc, a, c.s[0]) {
      PaidCodes(w0, w1, c.acc, a, c.s[0]);
      CodesTwice(w, w0, w1);
    }
  }

  lemma CallCodes(env: Env, depth: nat, c: Ctx, w: World)
    requires c.pc < |c.code| && IsCall(c.code[c.pc]) && |c.s| >= OperandCount(c.code[c.pc])
    ensures SameCodes(w, Exec(env, depth, c, w).w)
  {
    hide Exec, Paid, Known, SameCodes, Covers, Accessible, ChildOfCall, Fresh, SmallOperands;
    var a, v := c.s[1] % TWO160, CallValue(c.code[c.pc], c.s);
    var w0 := Known(w, a);
    SelfCodes(w);
    KnownCodes(w, a);
    var w1 := CallLaw(env, depth, c, w);
    if Paid(w0, w1, c.acc, a, v) {
      PaidCodes(w0, w1, c.acc, a, v);
      CodesTwice(w, w0, w1);
    }
  }

  lemma SameWorld(env: Env, depth: nat, c: Ctx, w: World)
    requires c.pc < |c.code|
    requires var op := c.code[c.pc]; !IsWorldOp(op) && op != SELFDESTRUCT && op != CREATE && !IsCall(op)
    ensures Exec(env, depth, c, w).w == w
  {
    hide MemoryOp, StackOp, ValidDestinations, InputWord, Prepare, FromBE;
  }

  // ----- The turn that stores code -----

  /** The running context is about to return to a creation of the account `a`. */
  predicate StoresAt(m: Machine, a: Word) {
    && |m.ctxts| >= 2
    && var c := m.ctxts[|m.ctxts| - 1];
       c.acc == a && AtOpcode(c, RETURN) && AtOpcode(m.ctxts[|m.ctxts| - 2], CREATE)
  }

  /** `w1` is `w` with the code of `a` replaced; balance, nonce and storage of the account, all other
      accounts and the list of the destructed are as before. */
  ghost predicate CodeStored(w: World, w1: World, a: Word, code: seq<Byte>) {
    && w1.destructs == w.destructs && w1.accounts.Keys == w.accounts.Keys + {a}
    && w1.accounts[a].code == code
    && w1.accounts[a].balance == Lookup(w, a).balance && w1.accounts[a].nonce == Lookup(w, a).nonce
    && w1.accounts[a].storage == Lookup(w, a).storage
    && forall x :: x in w.accounts && x != a ==> w1.accounts[x] == w.accounts[x]
  }

  /** The parent of the running context goes on in `m1` one past its creation, with the new address on its
      stack, in a world that has the code. */
  ghost predicate GoesOnCreated(m: Machine, m1: Machine, a: Word, output: seq<Byte>)
    requires |m.ctxts| >= 2
  {
    var n := |m.ctxts| - 1;
    var p := m.ctxts[n - 1];
    && m1.ctxts == m.ctxts[..n - 1] + [p.(s := [a] + p.s, pc := p.pc + 1)]
    && CodeStored(m.w, m1.w, a, output)
  }

  /** When the child of a creation returns and its parent has room, the parent goes on with the new address
      on its stack, and exactly the returned bytes are the code of the new account. */
  lemma CreationStores(env: Env, m: Machine, a: Word) returns (output: seq<Byte>)
    requires Inv(m) && StoresAt(m, a)
    requires var c := m.ctxts[|m.ctxts| - 1]; |c.s| >= 2 && Accessible(c.s[0], c.s[1]) && c.s[1] < TWO64
    requires |m.ctxts[|m.ctxts| - 2].s| < MAX_STACK
    ensures m.ctxts != [] && Nested(m.ctxts) && Step(env, m).Running?
    ensures |output| == m.ctxts[|m.ctxts| - 1].s[1]
    ensures MemoryBytes(m.ctxts[|m.ctxts| - 1].mem, m.ctxts[|m.ctxts| - 1].s[0], output)
    ensures GoesOnCreated(m, Step(env, m).m, a, output)
  {
    hide Step, Exec, Inv, Nested, Accessible, Handed, EndedBy, Resumed, WorldAfter, GoesOnCreated, MemoryBytes;
    InvParts(m);
    var n := |m.ctxts| - 1;
    var c := m.ctxts[n];
    output := ReturnedBytes(env, n + 1, c, m.w);
    EndingsHandOver(env, m);
    var t := StepTurn(env, m);
    CreationParent(m);
    StoredTurn(m, t, output, Step(env, m).m);
  }

  /** A child waits for a creation with the handler of its own account. */
  lemma CreationParent(m: Machine)
    requires Inv(m) && |m.ctxts| >= 2 && AtOpcode(m.ctxts[|m.ctxts| - 2], CREATE)
    ensures var c, p := m.ctxts[|m.ctxts| - 1], m.ctxts[|m.ctxts| - 2];
            c.handler == CreateRet(c.acc) && !p.pcChanged
  {
    assert WaitsFor(m.ctxts[|m.ctxts| - 2], m.ctxts[|m.ctxts| - 1]);
  }

  lemma StoredTurn(m: Machine, t: Turn, output: seq<Byte>, m1: Machine)
    requires |m.ctxts| >= 2 && TurnOf(m, Returned(output, m.w), t, m1) && |m1.ctxts| == |m.ctxts| - 1
    requires var c, p := m.ctxts[|m.ctxts| - 1], m.ctxts[|m.ctxts| - 2];
             c.handler == CreateRet(c.acc) && !p.pcChanged
    ensures GoesOnCreated(m, m1, m.ctxts[|m.ctxts| - 1].acc, output)
  {
  }

  // ----- Codes and nonces over whole runs -----

  /** A turn changes no nonce, and no code but that of the account whose creation returns. */
  lemma TurnCodes(env: Env, m: Machine, a: Word)
    requires Inv(m) && Step(env, m).Running?
    ensures Lookup(Step(env, m).m.w, a).nonce == Lookup(m.w, a).nonce
    ensures Lookup(Step(env, m).m.w, a).code != Lookup(m.w, a).code ==> StoresAt(m, a)
  {
    hide Step, Exec, Inv, Nested, Handed, Resumed, EndedBy;
    InvParts(m);
    var n := |m.ctxts| - 1;
    var c := m.ctxts[n];
    var t := StepTurn(env, m);
    var o := Exec(env, n + 1, c, m.w);
    ExecCodes(env, n + 1, c, m.w);
    if t.Back? && t.e.ByReturn? && c.handler.CreateRet? {
      ReturnedParent(m, o, t.j, t.e);
      CreatedBy(m);
      OnlyReturns(env, n + 1, c, m.w);
    }
  }

  lemma ReturnedParent(m: Machine, o: Outcome, j: nat, e: Ending)
    requires m.ctxts != [] && j < |m.ctxts| - 1 && EndedBy(m, o, j, e) && e.ByReturn?
    ensures j == |m.ctxts| - 2 && o.Returned?
  {
  }

  lemma CreatedBy(m: Machine)
    requires Inv(m) && |m.ctxts| >= 2 && m.ctxts[|m.ctxts| - 1].handler.CreateRet?
    ensures AtOpcode(m.ctxts[|m.ctxts| - 2], CREATE)
    ensures m.ctxts[|m.ctxts| - 1].handler.addr == m.ctxts[|m.ctxts| - 1].acc
  {
    assert WaitsFor(m.ctxts[|m.ctxts| - 2], m.ctxts[|m.ctxts| - 1]);
  }

  lemma OnlyReturns(env: Env, depth: nat, c: Ctx, w: World)
    requires c.pc < |c.code|
    ensures Exec(env, depth, c, w).Returned? ==> AtOpcode(c, RETURN)
  {
    hide MemoryOp, StackOp, ReadOp, CopyOp, PayTo, CallOperands, CallWindows, CreateOperands, ValidDestinations,
         GetAccount, InputWord;
  }

  /** In none of the first `n` turns a creation of `a` returns. */
  predicate NotStored(env: Env, m: Machine, a: Word, n: nat)
    requires m.ctxts != [] && Nested(m.ctxts)
    decreases n
  {
    n == 0 || (!StoresAt(m, a) && (Step(env, m).Running? ==> NotStored(env, Step(env, m).m, a, n - 1)))
  }

  /** Nonces never change, and the code of an account stays until a creation of it returns. */
  lemma {:induction false} CodeStays(env: Env, m: Machine, a: Word, n: nat)
    requires Inv(m) && m.ctxts != [] && Nested(m.ctxts) && Run(env, m, n).Running?
    ensures Inv(Run(env, m, n).m) && Lookup(Run(env, m, n).m.w, a).nonce == Lookup(m.w, a).nonce
    ensures NotStored(env, m, a, n) ==> Lookup(Run(env, m, n).m.w, a).code == Lookup(m.w, a).code
    decreases n
  {
    hide Step, Inv, Nested, StoresAt, Lookup;
    if n > 0 {
      StepKeepsInv(env, m);
      TurnCodes(env, m, a);
      CodeStays(env, Step(env, m).m, a, n - 1);
    }
  }

  /** The code that a creation returns is the code a later call of the address runs: after the turn that
      stores it, for any number of turns in which no creation of that address returns again, whatever
      else happens. A call of an account that was created without code enters nothing. */
  lemma CreatedCodeRuns(env: Env, m: Machine, a: Word, n: nat) returns (output: seq<Byte>)
    requires Inv(m) && StoresAt(m, a)
    requires var c := m.ctxts[|m.ctxts| - 1]; |c.s| >= 2 && Accessible(c.s[0], c.s[1]) && c.s[1] < TWO64
    requires |m.ctxts[|m.ctxts| - 2].s| < MAX_STACK
    ensures m.ctxts != [] && Nested(m.ctxts) && Step(env, m).Running?
    ensures CodeStored(m.w, Step(env, m).m.w, a, output)
    ensures var st := Run(env, Step(env, m).m, n);
            NotStored(env, Step(env, m).m, a, n) && st.Running? ==>
              var d := st.m.ctxts[|st.m.ctxts| - 1];
              d.pc < |d.code| && IsCall(d.code[d.pc]) && |d.s| >= 2 && d.s[1] % TWO160 == a ==>
                var o := Exec(env, |st.m.ctxts|, d, st.m.w);
                o.Entered? ==> o.child.code == output && output != []
  {
    hide Step, Exec, Inv, Nested, Accessible, StoresAt, NotStored, Run;
    output := CreationStores(env, m, a);
    var m1 := Step(env, m).m;
    StepKeepsInv(env, m);
    assert Lookup(m1.w, a).code == output;
    var st := Run(env, m1, n);
    if NotStored(env, m1, a, n) && st.Running? {
      CodeStays(env, m1, a, n);
      var d := st.m.ctxts[|st.m.ctxts| - 1];
      if d.pc < |d.code| { EnteredChild(env, |st.m.ctxts|, d, st.m.w); }
    }
  }

  /** All creations by one account in one run go to the same address: the code never counts them. */
  lemma CreationsCollide(env: Env, m: Machine, n: nat)
    requires Inv(m) && m.ctxts != [] && Nested(m.ctxts) && Run(env, m, n).Running?
    ensures var m1 := Run(env, m, n).m;
            var c, d := m.ctxts[|m.ctxts| - 1], m1.ctxts[|m1.ctxts| - 1];
            AtOpcode(c, CREATE) && AtOpcode(d, CREATE) && c.acc == d.acc ==>
              var o, o1 := Exec(env, |m.ctxts|, c, m.w), Exec(env, |m1.ctxts|, d, m1.w);
              o.Entered? && o1.Entered? ==> o1.child.acc == o.child.acc
  {
    hide Step, Exec, Inv, Nested, Run;
    var m1 := Run(env, m, n).m;
    var c, d := m.ctxts[|m.ctxts| - 1], m1.ctxts[|m1.ctxts| - 1];
    CodeStays(env, m, c.acc, n);
    if AtOpcode(c, CREATE) && AtOpcode(d, CREATE) {
      EnteredChild(env, |m.ctxts|, c, m.w);
      EnteredChild(env, |m1.ctxts|, d, m1.w);
    }
  }
}
