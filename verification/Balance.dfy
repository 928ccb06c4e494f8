/** Where ether comes from: the sum of all balances moves only by what an account pays to itself
    and by the endowments of newly created accounts. */
module Balance {
  import opened Words
  import opened Bytecode
  import opened Alu
  import opened Evm

  /** The sum of all balances in the world map. */
  ghost function Total(accounts: map<Word, Account>): nat
    decreases |accounts|
  {
    if accounts == map[] then 0
    else
      var a :| a in accounts;
      accounts[a].balance + Total(accounts - {a})
  }

  lemma {:induction false} TotalSplit(accounts: map<Word, Account>, a: Word)
    requires a in accounts
    ensures Total(accounts) == accounts[a].balance + Total(accounts - {a})
    decreases |accounts|
  {
    var b :| b in accounts && Total(accounts) == accounts[b].balance + Total(accounts - {b});
    if a != b {
      TotalSplit(accounts - {b}, a);
      TotalSplit(accounts - {a}, b);
      assert accounts - {a} - {b} == accounts - {b} - {a};
    }
  }

  lemma TotalUpdate(accounts: map<Word, Account>, a: Word, acc: Account)
    ensures Total(accounts[a := acc])
            == Total(accounts) - (if a in accounts then accounts[a].balance else 0) + acc.balance
  {
    var m := accounts[a := acc];
    TotalSplit(m, a);
    if a in accounts {
      TotalSplit(accounts, a);
      assert m - {a} == accounts - {a};
    } else {
      assert m - {a} == accounts;
    }
  }

  ghost function WorldTotal(w: World): nat {
    Total(w.accounts)
  }

  lemma SetAccountTotal(w: World, a: Word, acc: Account)
    ensures WorldTotal(SetAccount(w, a, acc)) == WorldTotal(w) - Lookup(w, a).balance + acc.balance
  {
    TotalUpdate(w.accounts, a, acc);
  }

  /** What a payment adds to the total: an account that can pay itself, and does, gains the amount. */
  function SelfPaid(w: World, from: Word, to: Word, amount: Word): nat {
    var balance := Lookup(w, from).balance;
    if from == to && amount <= balance && balance + amount < TWO256 then amount else 0
  }

  /** Paying another account conserves the total; paying oneself adds the amount, because the payer's
      debit is overwritten by the credit. */
  lemma PayToTotal(w: World, from: Word, to: Word, amount: Word)
    ensures var r := PayTo(w, from, to, amount);
            WorldTotal(if r.Ok? then r.value else w) == WorldTotal(w) + SelfPaid(w, from, to, amount)
  {
    hide WorldTotal;
    var r := PayTo(w, from, to, amount);
    if r.Ok? {
      var paid := Lookup(w, from).(balance := Lookup(w, from).balance - amount);
      var w1 := SetAccount(w, from, paid);
      SetAccountTotal(w, from, paid);
      SetAccountTotal(w1, to, Lookup(w1, to).(balance := Lookup(w, to).balance + amount));
    }
  }

  /** A new account brings its initial balance; an existing one is kept as it is. */
  lemma CreateAccountTotal(w: World, a: Word, balance: Word)
    ensures WorldTotal(CreateAccount(w, a, balance, []))
            == WorldTotal(w) + (if a in w.accounts then 0 else balance)
  {
    hide WorldTotal;
    SetAccountTotal(w, a, Account(balance, [], 0, map[]));
  }

  /** What one opcode adds to the total, read off its operands: self-payments, and the endowment
      of a creation at a fresh address, which stays even when paying for it fails. */
  function Minted(env: Env, c: Ctx, w: World): nat
    requires c.pc < |c.code|
  {
    var op := c.code[c.pc];
    if op == CREATE then
      match CreateOperands(c)
      case Throw(_) => 0
      case Ok((value, _, _, _)) =>
        var a := env.newAddress(c.acc, Lookup(w, c.acc).nonce);
        (if a in w.accounts then 0 else value) + SelfPaid(CreateAccount(w, a, value, []), c.acc, a, value)
    else if IsCall(op) then
      match CallOperands(op, c.s)
      case Throw(_) => 0
      case Ok(args) =>
        if 1 <= args.addr <= 8 then 0 else SelfPaid(GetAccount(w, args.addr), c.acc, args.addr, args.value)
    else if op == SELFDESTRUCT then
      match PopAddress(c.s)
      case Throw(_) => 0
      case Ok((a, _)) => SelfPaid(GetAccount(w, a), c.acc, a, Lookup(GetAccount(w, a), c.acc).balance)
    else 0
  }

  /** The world of an outcome holds what it held plus what was minted, thrown exceptions included. */
  ghost predicate Accounts(o: Outcome, total: nat) {
    match o
    case Next(_, w) => WorldTotal(w) == total
    case Threw(_, w) => WorldTotal(w) == total
    case Crashed(w) => WorldTotal(w) == total
    case Returned(_, w) => WorldTotal(w) == total
    case Halted(w) => WorldTotal(w) == total
    case Entered(_, _, w) => WorldTotal(w) == total
  }

  lemma ExecBalance(env: Env, depth: nat, c: Ctx, w: World)
    requires c.pc < |c.code|
    ensures Accounts(Exec(env, depth, c, w), WorldTotal(w) + Minted(env, c, w))
  {
    hide MemoryOp, StackOp, ReadOp, PayTo, CallOperands, CallWindows, CreateOperands, ValidDestinations,
         ExecWorld, ExecReturn, ExecSelfdestruct, ExecCreate, ExecCall, WorldTotal, SelfPaid;
    var op := c.code[c.pc];
    if IsWorldOp(op) { WorldOpBalance(op, c, w); }
    else if op == RETURN { ReturnBalance(c, w); }
    else if op == SELFDESTRUCT { SelfdestructBalance(env, c, w); }
    else if op == CREATE { CreateBalance(env, depth, c, w); }
    else if IsCall(op) { CallBalance(env, op, depth, c, w); }
  }

  lemma WorldOpBalance(op: Byte, c: Ctx, w: World)
    requires IsWorldOp(op)
    ensures Accounts(ExecWorld(op, c, w), WorldTotal(w))
  {
    hide CopyOp, WorldTotal;
    if op == SSTORE {
      if Pop(c.s).Ok? && Pop(Pop(c.s).value.1).Ok? {
        var k, v := Pop(c.s).value.0, Pop(Pop(c.s).value.1).value.0;
        var st := Lookup(w, c.acc).storage;
        SetAccountTotal(w, c.acc, Lookup(w, c.acc).(storage := if v == 0 then st - {k} else st[k := v]));
      }
    } else if PopAddress(c.s).Ok? {
      CreateAccountTotal(w, PopAddress(c.s).value.0, 0);
    }
  }

  lemma ReturnBalance(c: Ctx, w: World)
    ensures Accounts(ExecReturn(c, w), WorldTotal(w))
  {
    hide ReturnData, WorldTotal;
  }

  lemma SelfdestructBalance(env: Env, c: Ctx, w: World)
    requires c.pc < |c.code| && c.code[c.pc] == SELFDESTRUCT
    ensures Accounts(ExecSelfdestruct(c, w), WorldTotal(w) + Minted(env, c, w))
  {
    hide PayTo, WorldTotal;
    var r := PopAddress(c.s);
    if r.Ok? {
      CreateAccountTotal(w, r.value.0, 0);
      var w1 := GetAccount(w, r.value.0);
      PayToTotal(w1, c.acc, r.value.0, Lookup(w1, c.acc).balance);
      var r2 := PayTo(w1, c.acc, r.value.0, Lookup(w1, c.acc).balance);
      if r2.Ok? { DestructsDoNotCount(r2.value, r2.value.destructs + [c.acc]); }
    }
  }

  lemma DestructsDoNotCount(w: World, ds: seq<Word>)
    ensures WorldTotal(w.(destructs := ds)) == WorldTotal(w)
  {
  }

  lemma CreateBalance(env: Env, depth: nat, c: Ctx, w: World)
    requires c.pc < |c.code| && c.code[c.pc] == CREATE
    ensures Accounts(ExecCreate(env, depth, c, w), WorldTotal(w) + Minted(env, c, w))
  {
    hide PayTo, CreateOperands, CreateAccount, WorldTotal;
    var r := CreateOperands(c);
    if r.Ok? {
      var a := env.newAddress(c.acc, Lookup(w, c.acc).nonce);
      CreateAccountTotal(w, a, r.value.0);
      PayToTotal(CreateAccount(w, a, r.value.0, []), c.acc, a, r.value.0);
    }
  }

  lemma CallBalance(env: Env, op: Byte, depth: nat, c: Ctx, w: World)
    requires c.pc < |c.code| && c.code[c.pc] == op && IsCall(op)
    ensures Accounts(ExecCall(op, depth, c, w), WorldTotal(w) + Minted(env, c, w))
  {
    hide PayTo, CallOperands, CallWindows, WorldTotal;
    var r := CallOperands(op, c.s);
    if r.Ok? {
      CreateAccountTotal(w, r.value.addr, 0);
      PayToTotal(GetAccount(w, r.value.addr), c.acc, r.value.addr, r.value.value);
    }
  }

  // ----- Handlers and turns -----

  /** The total a status leaves, whichever way the run goes on or ends. */
  ghost predicate StatusTotal(st: Status, total: nat) {
    match st
    case Running(m) => WorldTotal(m.w) == total
    case Finished(m) => WorldTotal(m.w) == total
    case Escaped(w) => WorldTotal(w) == total
  }

  lemma ExceptionTotal(m: Machine, h: Handler, e: ErrorType)
    requires Popped(m, h)
    ensures StatusTotal(OnException(m, h, e), WorldTotal(m.w))
  {
    hide WorldTotal, Nested;
  }

  lemma ReturnTotal(m: Machine, h: Handler, output: seq<Byte>)
    requires Popped(m, h)
    ensures StatusTotal(OnReturn(m, h, output), WorldTotal(m.w))
  {
    hide WorldTotal, CopyMem, Nested, OnException;
    match h
    case Top =>
    case CallRet(offOut, sizeOut) =>
      var n := |m.ctxts| - 1;
      var r := CopyMem(m.ctxts[n].mem, offOut, output, 0, sizeOut, 0);
      if r.Throw? {
        ExceptionTotal(m, h, r.error);
      } else {
        var m1 := m.(ctxts := m.ctxts[..n] + [m.ctxts[n].(mem := r.value)]);
        NestedSplit(m.ctxts);
        NestedPush(m.ctxts[..n], m.ctxts[n].(mem := r.value));
        ExceptionTotal(m1, h, OutOfBounds);
      }
    case CreateRet(addr) =>
      SetAccountTotal(m.w, addr, Lookup(m.w, addr).(code := output));
      ExceptionTotal(m.(w := SetCode(m.w, addr, output)), h, OutOfBounds);
  }

  lemma HaltTotal(m: Machine, h: Handler)
    requires Popped(m, h)
    ensures StatusTotal(OnHalt(m, h), WorldTotal(m.w))
  {
    hide WorldTotal, Nested, OnException;
    if !h.Top? {
      NestedSplit(m.ctxts);
      var n := |m.ctxts| - 1;
      ExceptionTotal(m.(ctxts := m.ctxts[..n]), m.ctxts[n].handler, OutOfBounds);
    }
  }

  /** What one turn mints; a context that has run off its code mints nothing. */
  function TurnMinted(env: Env, m: Machine): nat
    requires m.ctxts != []
  {
    var c := m.ctxts[|m.ctxts| - 1];
    if c.pc < |c.code| then Minted(env, c, m.w) else 0
  }

  /** Every turn, succeeding or throwing, moves the total by exactly what it mints. */
  lemma StepBalance(env: Env, m: Machine)
    requires m.ctxts != [] && Nested(m.ctxts)
    ensures StatusTotal(Step(env, m), WorldTotal(m.w) + TurnMinted(env, m))
  {
    hide Exec, Deliver, Minted, Nested, WorldTotal;
    var n := |m.ctxts| - 1;
    var c := m.ctxts[n];
    FallOffTotal(m);
    if c.pc < |c.code| {
      ExecBalance(env, n + 1, c, m.w);
      ExecKeepsHandler(env, n + 1, c, m.w);
      DeliverTotal(m, Exec(env, n + 1, c, m.w), WorldTotal(m.w) + Minted(env, c, m.w));
    }
  }

  lemma FallOffTotal(m: Machine)
    requires m.ctxts != [] && Nested(m.ctxts)
    ensures StatusTotal(FallOff(m), WorldTotal(m.w))
  {
    hide WorldTotal, Nested;
    NestedSplit(m.ctxts);
  }

  lemma DeliverTotal(m: Machine, o: Outcome, total: nat)
    requires m.ctxts != [] && Nested(m.ctxts) && Accounts(o, total)
    requires o.Next? ==> o.c.handler == m.ctxts[|m.ctxts| - 1].handler
    requires o.Entered? ==> o.c.handler == m.ctxts[|m.ctxts| - 1].handler && !o.child.handler.Top?
    ensures StatusTotal(Deliver(m, o), total)
  {
    hide WorldTotal, Nested, OnException, OnReturn, OnHalt;
    var n := |m.ctxts| - 1;
    NestedSplit(m.ctxts);
    match o
    case Next(_, _) =>
    case Threw(e, w) => ExceptionTotal(m.(ctxts := m.ctxts[..n], w := w), m.ctxts[n].handler, e);
    case Crashed(_) =>
    case Returned(output, w) => ReturnTotal(m.(ctxts := m.ctxts[..n], w := w), m.ctxts[n].handler, output);
    case Halted(w) => HaltTotal(m.(ctxts := m.ctxts[..n], w := w), m.ctxts[n].handler);
    case Entered(_, _, _) =>
  }

  // ----- Whole runs -----

  /** What `n` turns mint together. */
  function RunMinted(env: Env, m: Machine, n: nat): nat
    requires m.ctxts != [] && Nested(m.ctxts)
    decreases n
  {
    if n == 0 then 0
    else TurnMinted(env, m) + (if Step(env, m).Running? then RunMinted(env, Step(env, m).m, n - 1) else 0)
  }

  /** After any number of turns the total is the initial one plus everything minted on the way. */
  lemma {:induction false} RunBalance(env: Env, m: Machine, n: nat)
    requires m.ctxts != [] && Nested(m.ctxts)
    ensures StatusTotal(Run(env, m, n), WorldTotal(m.w) + RunMinted(env, m, n))
    decreases n
  {
    hide Step, WorldTotal, TurnMinted;
    if n > 0 {
      StepBalance(env, m);
      if Step(env, m).Running? { RunBalance(env, Step(env, m).m, n - 1); }
    }
  }

  /** No turn of the first `n` pays itself a nonzero amount or endows a new account. */
  predicate NothingMinted(env: Env, m: Machine, n: nat)
    requires m.ctxts != [] && Nested(m.ctxts)
    decreases n
  {
    n == 0 || (TurnMinted(env, m) == 0 && (Step(env, m).Running? ==> NothingMinted(env, Step(env, m).m, n - 1)))
  }

  /** Conservation: the total is the initial one exactly in the runs in which no turn mints. */
  lemma {:induction false} Conservation(env: Env, m: Machine, n: nat)
    requires m.ctxts != [] && Nested(m.ctxts)
    ensures StatusTotal(Run(env, m, n), WorldTotal(m.w)) <==> NothingMinted(env, m, n)
    decreases n
  {
    hide Step, WorldTotal, TurnMinted;
    RunBalance(env, m, n);
    MintedNothing(env, m, n);
  }

  lemma {:induction false} MintedNothing(env: Env, m: Machine, n: nat)
    requires m.ctxts != [] && Nested(m.ctxts)
    ensures RunMinted(env, m, n) == 0 <==> NothingMinted(env, m, n)
    decreases n
  {
    hide Step, TurnMinted;
    if n > 0 && Step(env, m).Running? { MintedNothing(env, Step(env, m).m, n - 1); }
  }

  // ----- The clean-up -----

  /** The accounts the clean-up removes, each once however often it is noted. */
  function Destructed(w: World): map<Word, Account> {
    map a | a in w.accounts && a in w.destructs :: w.accounts[a]
  }

  lemma {:induction false} TotalSum(p: map<Word, Account>, q: map<Word, Account>)
    requires p.Keys !! q.Keys
    ensures Total(p + q) == Total(p) + Total(q)
    decreases |p|
  {
    hide Total;
    if p == map[] {
      NothingAdded(q);
    } else {
      var a :| a in p;
      TotalSplit(p, a);
      TotalSplit(p + q, a);
      OneLess(p, q, a);
      TotalSum(p - {a}, q);
    }
  }

  lemma NothingAdded(q: map<Word, Account>)
    ensures Total(map[]) == 0 && map[] + q == q
  {
  }

  lemma OneLess(p: map<Word, Account>, q: map<Word, Account>, a: Word)
    requires p.Keys !! q.Keys && a in p
    ensures (p + q) - {a} == (p - {a}) + q && a in p + q && (p + q)[a] == p[a] && (p - {a}).Keys !! q.Keys
  {
  }

  /** The clean-up burns exactly the balances of the removed accounts. */
  lemma CleanUpTotal(w: World)
    ensures WorldTotal(CleanUp(w)) == WorldTotal(w) - Total(Destructed(w))
  {
    TotalSum(CleanUp(w).accounts, Destructed(w));
    assert CleanUp(w).accounts + Destructed(w) == w.accounts;
  }

  /** What `run` leaves when it ends: the initial sum, what was minted, less what was burned. */
  lemma EndedTotal(env: Env, m: Machine, n: nat)
    requires m.ctxts != [] && Nested(m.ctxts) && Run(env, m, n).Finished?
    ensures var w := Run(env, m, n).m.w;
            WorldTotal(CleanUp(w)) == WorldTotal(m.w) + RunMinted(env, m, n) - Total(Destructed(w))
  {
    hide Run, RunMinted, WorldTotal, CleanUp, Destructed;
    RunBalance(env, m, n);
    CleanUpTotal(Run(env, m, n).m.w);
  }
}
