/** Runs without taken jumps are finite, although calls may nest and repeat: every turn lowers a weight
    that counts remaining code, each nesting level in a unit the level above cannot fill. */
module Termination {
  import opened Words
  import opened Bytecode
  import opened Alu
  import opened Evm
  import opened EvmShape
  import opened EvmInvariant
  import opened WordOpcodes
  import opened Jumps

  // ----- Bounded code -----

  predicate CodesBounded(w: World, L: nat) {
    forall a :: a in w.accounts ==> |w.accounts[a].code| <= L
  }

  /** No code, stored or running, is longer than `L`; init code and returned code come from memory. */
  predicate Bounded(m: Machine, L: nat) {
    MAX_MEM <= L && CodesBounded(m.w, L) && forall i :: 0 <= i < |m.ctxts| ==> |m.ctxts[i].code| <= L
  }

  /** Some bound always exists. */
  lemma {:induction false} BoundExists(w: World) returns (L: nat)
    ensures MAX_MEM <= L && CodesBounded(w, L)
    decreases |w.accounts|
  {
    if w.accounts == map[] {
      L := MAX_MEM;
    } else {
      var a :| a in w.accounts;
      var rest := w.(accounts := w.accounts - {a});
      L := BoundExists(rest);
      forall b | b in w.accounts && b != a ensures |w.accounts[b].code| <= L {
        assert b in rest.accounts;
      }
      if L < |w.accounts[a].code| { L := |w.accounts[a].code|; }
    }
  }

  lemma SetAccountBounded(w: World, a: Word, acc: Account, L: nat)
    requires CodesBounded(w, L) && |acc.code| <= L
    ensures CodesBounded(SetAccount(w, a, acc), L)
  {
  }

  lemma LookupBounded(w: World, a: Word, L: nat)
    requires CodesBounded(w, L)
    ensures |Lookup(w, a).code| <= L
  {
  }

  lemma PayToBounded(w: World, from: Word, to: Word, amount: Word, L: nat)
    requires CodesBounded(w, L)
    ensures PayTo(w, from, to, amount).Ok? ==> CodesBounded(PayTo(w, from, to, amount).value, L)
  {
    var r := PayTo(w, from, to, amount);
    if r.Ok? {
      LookupBounded(w, from, L);
      var w1 := SetAccount(w, from, Lookup(w, from).(balance := Lookup(w, from).balance - amount));
      SetAccountBounded(w, from, Lookup(w, from).(balance := Lookup(w, from).balance - amount), L);
      LookupBounded(w1, to, L);
      SetAccountBounded(w1, to, Lookup(w1, to).(balance := Lookup(w, to).balance + amount), L);
    }
  }

  /** The world part of an outcome, its child and its output respect the bound. */
  predicate OutcomeBounded(o: Outcome, L: nat) {
    match o
    case Next(_, w) => CodesBounded(w, L)
    case Threw(_, w) => CodesBounded(w, L)
    case Crashed(w) => CodesBounded(w, L)
    case Returned(output, w) => CodesBounded(w, L) && |output| <= MAX_MEM
    case Halted(w) => CodesBounded(w, L)
    case Entered(_, child, w) => CodesBounded(w, L) && |child.code| <= L
  }

  lemma ExecBounded(env: Env, depth: nat, c: Ctx, w: World, L: nat)
    requires c.pc < |c.code| && MAX_MEM <= L && CodesBounded(w, L)
    ensures OutcomeBounded(Exec(env, depth, c, w), L)
  {
    hide MemoryOp, StackOp, ReadOp, PayTo, CallOperands, CallWindows, CreateOperands, ValidDestinations,
         ExecWorld, ExecReturn, ExecSelfdestruct, ExecCreate, ExecCall, CodesBounded;
    var op := c.code[c.pc];
    if IsWorldOp(op) { WorldOpBounded(op, c, w, L); }
    else if op == RETURN { ReturnBounded(c, w); }
    else if op == SELFDESTRUCT { SelfdestructBounded(c, w, L); }
    else if op == CREATE { CreateBounded(env, depth, c, w, L); }
    else if IsCall(op) { CallBounded(op, depth, c, w, L); }
  }

  lemma WorldOpBounded(op: Byte, c: Ctx, w: World, L: nat)
    requires IsWorldOp(op) && CodesBounded(w, L)
    ensures OutcomeBounded(ExecWorld(op, c, w), L)
  {
    hide CopyOp, CodesBounded;
    if op == SSTORE {
      if Pop(c.s).Ok? && Pop(Pop(c.s).value.1).Ok? {
        var k, v := Pop(c.s).value.0, Pop(Pop(c.s).value.1).value.0;
        var st := Lookup(w, c.acc).storage;
        LookupBounded(w, c.acc, L);
        SetAccountBounded(w, c.acc, Lookup(w, c.acc).(storage := if v == 0 then st - {k} else st[k := v]), L);
      }
    } else if PopAddress(c.s).Ok? {
      CreatedBounded(w, PopAddress(c.s).value.0, 0, L);
    }
  }

  lemma CreatedBounded(w: World, a: Word, balance: Word, L: nat)
    requires CodesBounded(w, L)
    ensures CodesBounded(CreateAccount(w, a, balance, []), L)
  {
    SetAccountBounded(w, a, Account(balance, [], 0, map[]), L);
  }

  lemma ReturnBounded(c: Ctx, w: World)
    ensures var o := ExecReturn(c, w);
            (o.Threw? || o.Returned?) && o.w == w && (o.Returned? ==> |o.output| <= MAX_MEM)
  {
  }

  lemma SelfdestructBounded(c: Ctx, w: World, L: nat)
    requires CodesBounded(w, L)
    ensures OutcomeBounded(ExecSelfdestruct(c, w), L)
  {
    hide PayTo;
    var r := PopAddress(c.s);
    if r.Ok? {
      CreatedBounded(w, r.value.0, 0, L);
      var w1 := GetAccount(w, r.value.0);
      PayToBounded(w1, c.acc, r.value.0, Lookup(w1, c.acc).balance, L);
    }
  }

  lemma CreateBounded(env: Env, depth: nat, c: Ctx, w: World, L: nat)
    requires CodesBounded(w, L) && MAX_MEM <= L
    ensures OutcomeBounded(ExecCreate(env, depth, c, w), L)
  {
    hide PayTo, CreateOperands, CodesBounded;
    CreateOperandsShape(c);
    var r := CreateOperands(c);
    if r.Ok? {
      var a := env.newAddress(c.acc, Lookup(w, c.acc).nonce);
      CreatedBounded(w, a, r.value.0, L);
      PayToBounded(CreateAccount(w, a, r.value.0, []), c.acc, a, r.value.0, L);
    }
  }

  lemma CallBounded(op: Byte, depth: nat, c: Ctx, w: World, L: nat)
    requires IsCall(op) && CodesBounded(w, L)
    ensures OutcomeBounded(ExecCall(op, depth, c, w), L)
  {
    hide PayTo, CallOperands, CallWindows, CodesBounded;
    var r := CallOperands(op, c.s);
    if r.Ok? {
      var w1 := GetAccount(w, r.value.addr);
      CreatedBounded(w, r.value.addr, 0, L);
      PayToBounded(w1, c.acc, r.value.addr, r.value.value, L);
      var r2 := PayTo(w1, c.acc, r.value.addr, r.value.value);
      if r2.Ok? { LookupBounded(r2.value, r.value.addr, L); }
    }
  }

  // ----- The weight -----

  /** One unit at nesting level `i`: more than a whole program at the level above it. */
  function Unit(i: nat, L: nat): nat
    requires i <= MAX_CALL_DEPTH
  {
    Exp(L + 2, MAX_CALL_DEPTH - i)
  }

  lemma UnitPositive(i: nat, L: nat)
    requires i <= MAX_CALL_DEPTH
    ensures Unit(i, L) >= 1
    ensures i < MAX_CALL_DEPTH ==> Unit(i, L) == (L + 2) * Unit(i + 1, L)
  {
    ExpPositive(L + 2, MAX_CALL_DEPTH - i);
  }

  /** Code bytes left for a context that waits at a call: those after the call. */
  function WaitingLeft(c: Ctx): int {
    |c.code| - c.pc - 1
  }

  /** Turns the running context has left without jumping; its very first may run twice. */
  function RunningLeft(c: Ctx): int {
    |c.code| - c.pc + (if c.pcChanged then 1 else 0)
  }

  function WaitingWeight(ctxts: seq<Ctx>, L: nat): int
    requires |ctxts| <= MAX_CALL_DEPTH
  {
    if ctxts == [] then 0
    else
      var n := |ctxts| - 1;
      WaitingWeight(ctxts[..n], L) + WaitingLeft(ctxts[n]) * Unit(n, L)
  }

  function Weight(ctxts: seq<Ctx>, L: nat): int
    requires 0 < |ctxts| <= MAX_CALL_DEPTH
  {
    var n := |ctxts| - 1;
    WaitingWeight(ctxts[..n], L) + RunningLeft(ctxts[n]) * Unit(n, L)
  }

  lemma {:induction false} WaitingWeightGrows(ctxts: seq<Ctx>, j: nat, L: nat)
    requires j <= |ctxts| <= MAX_CALL_DEPTH
    requires forall i :: 0 <= i < |ctxts| ==> WaitingLeft(ctxts[i]) >= 0
    ensures 0 <= WaitingWeight(ctxts[..j], L) <= WaitingWeight(ctxts, L)
    decreases |ctxts|
  {
    if j == |ctxts| {
      assert ctxts[..j] == ctxts;
      if j > 0 {
        WaitingWeightGrows(ctxts[..j - 1], j - 1, L);
        assert ctxts[..j - 1][..j - 1] == ctxts[..j - 1];
        ProductNat(WaitingLeft(ctxts[j - 1]), Unit(j - 1, L));
      }
    } else {
      var n := |ctxts| - 1;
      WaitingWeightGrows(ctxts[..n], j, L);
      assert ctxts[..n][..j] == ctxts[..j];
      ProductNat(WaitingLeft(ctxts[n]), Unit(n, L));
    }
  }

  lemma ProductNat(a: int, b: nat)
    requires a >= 0
    ensures a * b >= 0
  {
  }

  lemma ProductStep(a: int, b: int, u: int)
    requires a < b && u >= 1
    ensures a * u < b * u
  {
    assert b * u == a * u + (b - a) * u;
    assert (b - a) * u >= 1 * u by { ProductNat(b - a - 1, u); assert (b - a) * u == (b - a - 1) * u + u; }
  }

  /** The opcode about to run takes a jump, by its operands and the code. */
  predicate TakesJump(m: Machine)
    requires m.ctxts != []
  {
    WillJump(m.ctxts[|m.ctxts| - 1])
  }

  /** Exactly then the outcome of the turn moves the counter. */
  lemma TakesJumpExactly(env: Env, m: Machine)
    requires Inv(m)
    ensures var c := m.ctxts[|m.ctxts| - 1];
            TakesJump(m) <==>
              && c.pc < |c.code| && (c.code[c.pc] == JUMP || c.code[c.pc] == JUMPI)
              && var o := Exec(env, |m.ctxts|, c, m.w);
                 o.Next? && o.c.pcChanged
  {
    hide Exec, JumpdestAt;
    var c := m.ctxts[|m.ctxts| - 1];
    if c.pc < |c.code| && (c.code[c.pc] == JUMP || c.code[c.pc] == JUMPI) {
      WillJumpExactly(env, |m.ctxts|, c, m.w);
    }
  }

  lemma OnwardLowers(c: Ctx, d: Ctx)
    requires c.pc < |c.code| && SameFrame(c, d) && PcAfter(c, d)
    requires (c.code[c.pc] == JUMP || c.code[c.pc] == JUMPI) ==> !d.pcChanged
    ensures 0 <= RunningLeft(StepPc(d)) < RunningLeft(c)
  {
  }

  lemma OnwardWeight(m: Machine, d: Ctx, L: nat)
    requires 0 < |m.ctxts| <= MAX_CALL_DEPTH
    requires RunningLeft(StepPc(d)) < RunningLeft(m.ctxts[|m.ctxts| - 1])
    ensures Weight(m.ctxts[..|m.ctxts| - 1] + [StepPc(d)], L) < Weight(m.ctxts, L)
  {
    hide WaitingWeight, RunningLeft, StepPc;
    var n := |m.ctxts| - 1;
    UnitPositive(n, L);
    assert (m.ctxts[..n] + [StepPc(d)])[..n] == m.ctxts[..n];
    ProductStep(RunningLeft(StepPc(d)), RunningLeft(m.ctxts[n]), Unit(n, L));
  }

  /** Entering a child costs the parent one unit, which pays for all of the child's code. */
  lemma EnterWeight(m: Machine, p: Ctx, child: Ctx, L: nat)
    requires 0 < |m.ctxts| < MAX_CALL_DEPTH
    requires WaitingLeft(p) + 1 <= RunningLeft(m.ctxts[|m.ctxts| - 1]) && RunningLeft(child) <= L
    ensures Weight(m.ctxts[..|m.ctxts| - 1] + [p, child], L) < Weight(m.ctxts, L)
  {
    hide RunningLeft, WaitingLeft;
    var n := |m.ctxts| - 1;
    var below := m.ctxts[..n];
    var ctxts := below + [p, child];
    assert ctxts[..n + 1] == below + [p];
    assert (below + [p])[..n] == below;
    UnitPositive(n, L);
    UnitPositive(n + 1, L);
    EnterSum(WaitingLeft(p), RunningLeft(m.ctxts[n]), RunningLeft(child), Unit(n, L), Unit(n + 1, L), L);
  }

  lemma EnterSum(a: int, b: int, r: int, u: int, v: int, L: nat)
    requires a + 1 <= b && r <= L && v >= 1 && u == (L + 2) * v
    ensures a * u + r * v < b * u
  {
    ProductNat(b - a - 1, u);
    assert b * u == a * u + u + (b - a - 1) * u;
    ProductNat(L - r, v);
    assert (L + 2) * v == r * v + (L - r) * v + 2 * v;
  }

  lemma BackWeight(m: Machine, j: nat, d: Ctx, L: nat)
    requires 0 < |m.ctxts| <= MAX_CALL_DEPTH && j < |m.ctxts| - 1
    requires forall i :: 0 <= i < |m.ctxts| - 1 ==> WaitingLeft(m.ctxts[i]) >= 0
    requires RunningLeft(m.ctxts[|m.ctxts| - 1]) >= 1 && RunningLeft(d) == WaitingLeft(m.ctxts[j])
    ensures Weight(m.ctxts[..j] + [d], L) < Weight(m.ctxts, L)
  {
    hide RunningLeft, WaitingLeft;
    var n := |m.ctxts| - 1;
    var below := m.ctxts[..n];
    assert (m.ctxts[..j] + [d])[..j] == m.ctxts[..j];
    WaitingWeightGrows(below, j + 1, L);
    assert below[..j + 1] == m.ctxts[..j + 1] && m.ctxts[..j + 1][..j] == m.ctxts[..j];
    UnitPositive(n, L);
    ProductStep(0, RunningLeft(m.ctxts[n]), Unit(n, L));
  }

  lemma InvLeft(m: Machine)
    requires Inv(m)
    ensures 0 < |m.ctxts| <= MAX_CALL_DEPTH
    ensures forall i :: 0 <= i < |m.ctxts| - 1 ==> WaitingLeft(m.ctxts[i]) >= 0
    ensures RunningLeft(m.ctxts[|m.ctxts| - 1]) >= 0
  {
    forall i | 0 <= i < |m.ctxts| - 1 ensures WaitingLeft(m.ctxts[i]) >= 0 {
      BackParts(m, i);
    }
    var c := m.ctxts[|m.ctxts| - 1];
    assert Good(c);
    if c.pc != |c.code| { StartsInside(c.code, 0, c.pc); }
  }

  lemma WeightNat(m: Machine, L: nat)
    requires Inv(m)
    ensures |m.ctxts| <= MAX_CALL_DEPTH && m.ctxts != [] && Weight(m.ctxts, L) >= 0
  {
    hide Inv, RunningLeft, WaitingLeft;
    InvLeft(m);
    var n := |m.ctxts| - 1;
    WaitingWeightGrows(m.ctxts[..n], n, L);
    assert m.ctxts[..n][..n] == m.ctxts[..n];
    UnitPositive(n, L);
    ProductNat(RunningLeft(m.ctxts[n]), Unit(n, L));
  }

  /** Every turn that takes no jump lowers the weight and keeps the bound. */
  lemma TurnLowers(env: Env, m: Machine, L: nat)
    requires Inv(m) && Bounded(m, L) && Step(env, m).Running? && !TakesJump(m)
    ensures Inv(Step(env, m).m) && Bounded(Step(env, m).m, L)
    ensures |m.ctxts| <= MAX_CALL_DEPTH && |Step(env, m).m.ctxts| <= MAX_CALL_DEPTH
    ensures Weight(Step(env, m).m.ctxts, L) < Weight(m.ctxts, L)
  {
    hide Step, Exec, Inv, Nested, TurnOf, PcAfter, Weight, Bounded, OutcomeBounded, Waiting, Lineage, HandlerFits,
         Fresh, MemoryGrows, SameFrame, TakesJump;
    InvParts(m);
    InvLeft(m);
    TakesJumpExactly(env, m);
    var n := |m.ctxts| - 1;
    var c := m.ctxts[n];
    var t := StepTurn(env, m);
    var o, m1 := Exec(env, n + 1, c, m.w), Step(env, m).m;
    StepKeepsInv(env, m);
    InvLeft(m1);
    NextShape(env, n + 1, c, m.w);
    EnteredShape(env, n + 1, c, m.w);
    BoundedWorld(m, L);
    ExecBounded(env, n + 1, c, m.w, L);
    if o.Entered? { WaitingKeepsCode(c.code[c.pc], c, o.c); }
    TurnBounded(m, o, t, m1, L);
    match t
    case Onward(_) =>
      OnwardParts(m, o, t, m1);
      OnwardLowers(c, o.c);
      OnwardWeight(m, o.c, L);
    case Enter(_, _) =>
      EnterTurnParts(m, o, t, m1, L);
      EnterWeight(m, o.c, StepPc(o.child), L);
    case Back(j, e, v, mem) =>
      BackTurnParts(m, o, t, m1);
      BackWeight(m, j, m1.ctxts[j], L);
  }

  lemma WaitingKeepsCode(op: Byte, c: Ctx, p: Ctx)
    requires Waiting(op, c, p)
    ensures p.code == c.code
  {
  }

  lemma BoundedWorld(m: Machine, L: nat)
    requires Bounded(m, L)
    ensures CodesBounded(m.w, L) && MAX_MEM <= L
  {
  }

  lemma OnwardParts(m: Machine, o: Outcome, t: Turn, m1: Machine)
    requires m.ctxts != [] && t.Onward? && TurnOf(m, o, t, m1)
    ensures o.Next? && m1.ctxts == m.ctxts[..|m.ctxts| - 1] + [StepPc(o.c)]
  {
  }

  lemma EnterTurnParts(m: Machine, o: Outcome, t: Turn, m1: Machine, L: nat)
    requires Inv(m) && t.Enter? && TurnOf(m, o, t, m1) && OutcomeBounded(o, L)
    requires var c := m.ctxts[|m.ctxts| - 1];
             && c.pc < |c.code|
             && (o.Entered? ==> Waiting(c.code[c.pc], c, o.c) && Fresh(o.child) && |m.ctxts| < MAX_CALL_DEPTH)
    ensures o.Entered? && |m.ctxts| < MAX_CALL_DEPTH && m1.ctxts == m.ctxts[..|m.ctxts| - 1] + [o.c, StepPc(o.child)]
    ensures WaitingLeft(o.c) + 1 <= RunningLeft(m.ctxts[|m.ctxts| - 1]) && RunningLeft(StepPc(o.child)) <= L
  {
    hide Nested, CodesBounded;
  }

  lemma BackTurnParts(m: Machine, o: Outcome, t: Turn, m1: Machine)
    requires Inv(m) && t.Back? && TurnOf(m, o, t, m1) && m.ctxts[|m.ctxts| - 1].pc < |m.ctxts[|m.ctxts| - 1].code|
    ensures t.j < |m.ctxts| - 1 && |m1.ctxts| == t.j + 1 && m1.ctxts == m.ctxts[..t.j] + [m1.ctxts[t.j]]
    ensures RunningLeft(m.ctxts[|m.ctxts| - 1]) >= 1 && RunningLeft(m1.ctxts[t.j]) == WaitingLeft(m.ctxts[t.j])
  {
    hide Nested, EndedBy, Handed, WorldAfter;
    BackParts(m, t.j);
    hide Inv;
  }

  lemma TurnBounded(m: Machine, o: Outcome, t: Turn, m1: Machine, L: nat)
    requires m.ctxts != [] && Bounded(m, L) && TurnOf(m, o, t, m1) && OutcomeBounded(o, L)
    requires o.Next? ==> SameFrame(m.ctxts[|m.ctxts| - 1], o.c)
    requires o.Entered? ==> o.c.code == m.ctxts[|m.ctxts| - 1].code
    ensures Bounded(m1, L)
  {
    hide CodesBounded, Handed;
    match t
    case Onward(_) =>
    case Enter(_, _) =>
    case Back(j, e, v, mem) =>
      var h := m.ctxts[|m.ctxts| - 1].handler;
      if e.ByReturn? && h.CreateRet? {
        LookupBounded(o.w, h.addr, L);
        SetAccountBounded(o.w, h.addr, Lookup(o.w, h.addr).(code := e.output), L);
      }
  }

  // ----- The theorem -----

  /** No turn of the first `n` takes a jump. */
  predicate JumpFree(env: Env, m: Machine, n: nat)
    requires m.ctxts != [] && Nested(m.ctxts)
    decreases n
  {
    n == 0 || (!TakesJump(m) && (Step(env, m).Running? ==> JumpFree(env, Step(env, m).m, n - 1)))
  }

  /** A run that takes no jump has ended once it has made as many turns as its weight. */
  lemma {:induction false} JumpFreeRunsEnd(env: Env, m: Machine, L: nat, n: nat)
    requires Inv(m) && Bounded(m, L) && JumpFree(env, m, n)
    requires |m.ctxts| <= MAX_CALL_DEPTH && n > Weight(m.ctxts, L)
    ensures !Run(env, m, n).Running?
    decreases n
  {
    hide Step, Inv, TakesJump, Weight, Bounded;
    InvParts(m);
    WeightNat(m, L);
    if Step(env, m).Running? {
      TurnLowers(env, m, L);
      JumpFreeRunsEnd(env, Step(env, m).m, L, n - 1);
    }
  }

  /** From any call of `run` a number of turns is known beforehand: one unit for every code byte. */
  lemma JumpFreeStartsEnd(env: Env, caller: Word, callee: Word, input: seq<Byte>, callValue: Word, w: World,
                          L: nat, n: nat)
    requires MAX_MEM <= L && CodesBounded(w, L)
    requires JumpFree(env, Start(caller, callee, input, callValue, w), n)
    requires n > (|Lookup(w, callee).code| + 1) * Unit(0, L)
    ensures !Run(env, Start(caller, callee, input, callValue, w), n).Running?
  {
    hide Step, JumpFree, Unit;
    var m := Start(caller, callee, input, callValue, w);
    StartInv(caller, callee, input, callValue, w);
    LookupBounded(w, callee, L);
    assert m.ctxts[..0] == [];
    assert WaitingWeight(m.ctxts[..0], L) == 0;
    JumpFreeRunsEnd(env, m, L, n);
  }
}
