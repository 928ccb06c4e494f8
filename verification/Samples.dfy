/** The two code generators of the samples, and what the interpreter makes of their programs. */
module Samples {
  import opened Words
  import opened Bytecode
  import opened Alu
  import opened Evm

  // ----- The generators -----

  /** Code that stores byte `i` of the string at memory address `i`, an 8-bit counter. */
  function StoreByte(b: Byte, i: nat): seq<Byte> {
    [PUSH1, b, PUSH1, i % 0x100, MSTORE8]
  }

  function StoreBytes(s: seq<Byte>, n: nat): (r: seq<Byte>)
    requires n <= |s|
    ensures |r| == 5 * n
  {
    if n == 0 then [] else StoreBytes(s, n - 1) + StoreByte(s[n - 1], n - 1)
  }

  function ReturnSlice(size: nat): seq<Byte> {
    [PUSH1, size % 0x100, PUSH1, 0, RETURN]
  }

  function HelloCode(s: seq<Byte>): seq<Byte> {
    StoreBytes(s, |s|) + ReturnSlice(|s| + 1)
  }

  method CreateBytecode(s: seq<Byte>) returns (code: seq<Byte>)
    ensures code == HelloCode(s)
  {
    hide StoreBytes;
    code := [];
    StoreBytesNone(s);
    var mdest := 0;
    var rsize := (|s| + 1) % 0x100;
    var mcurrent: nat := mdest;
    for i := 0 to |s|
      invariant code == StoreBytes(s, i) && mcurrent == i % 0x100
    {
      ghost var before := code;
      code := code + [PUSH1];
      code := code + [s[i]];
      code := code + [PUSH1];
      code := code + [mcurrent];
      code := code + [MSTORE8];
      StoreBytesNext(s, i);
      FiveMore(before, PUSH1, s[i], PUSH1, mcurrent, MSTORE8);
      mcurrent := (mcurrent + 1) % 0x100;
    }
    FiveMore(code, PUSH1, rsize, PUSH1, mdest, RETURN);
    code := code + [PUSH1];
    code := code + [rsize];
    code := code + [PUSH1];
    code := code + [mdest];
    code := code + [RETURN];
  }

  lemma StoreBytesNone(s: seq<Byte>)
    ensures StoreBytes(s, 0) == []
  {
  }

  lemma StoreBytesNext(s: seq<Byte>, i: nat)
    requires i < |s|
    ensures StoreBytes(s, i + 1) == StoreBytes(s, i) + [PUSH1, s[i], PUSH1, i % 0x100, MSTORE8]
  {
  }

  /** Five appended bytes are one appended instruction group. */
  lemma FiveMore(code: seq<Byte>, a: Byte, b: Byte, c: Byte, d: Byte, e: Byte)
    ensures code + [a] + [b] + [c] + [d] + [e] == code + [a, b, c, d, e]
  {
  }

  function PushWord(v: Word): seq<Byte> {
    [PUSH32] + ToBE(v, 32)
  }

  function SumCode(a: Word, b: Word): seq<Byte> {
    PushWord(a) + PushWord(b) + [ADD, PUSH1, 0, MSTORE, PUSH1, 0x20, PUSH1, 0, RETURN]
  }

  method PushUint256(code: seq<Byte>, n: Word) returns (r: seq<Byte>)
    ensures r == code + PushWord(n)
  {
    r := code + [PUSH32];
    var preSize := |r|;
    r := r + Zeros(32);
    r := r[..preSize] + ToBE(n, 32);
  }

  method CreateAPlusBBytecode(a: Word, b: Word) returns (code: seq<Byte>)
    ensures code == SumCode(a, b)
  {
    code := PushUint256([], a);
    code := PushUint256(code, b);
    code := code + [ADD];
    code := code + [PUSH1];
    code := code + [0x0];
    code := code + [MSTORE];
    code := code + [PUSH1];
    code := code + [0x20];
    code := code + [PUSH1];
    code := code + [0x0];
    code := code + [RETURN];
  }

  // ----- Turns of a machine with a single context -----

  predicate Solo(m: Machine, c: Ctx) {
    m.ctxts == [c] && c.handler.Top?
  }

  function With(m: Machine, c: Ctx): Machine {
    m.(ctxts := [c])
  }

  /** The context after the instruction at its counter: positioned at `pc`, with stack and memory. */
  function At(c: Ctx, pc: nat, s: seq<Word>, mem: seq<Byte>): Ctx {
    c.(pc := pc, pcChanged := false, s := s, mem := mem)
  }

  lemma NextTurn(env: Env, m: Machine, c: Ctx, c1: Ctx)
    requires Solo(m, c) && c.pc < |c.code| && Exec(env, 1, c, m.w) == Next(c1, m.w)
    ensures Step(env, m) == Running(With(m, StepPc(c1)))
  {
    hide Exec;
    assert [c][..0] == [] && [c1][..0] == [];
  }

  /** A one-byte push, from a counter that was just set or has just been stepped to. */
  lemma PushTurn(env: Env, m: Machine, c: Ctx, n: nat, v: Word)
    requires Solo(m, c) && 1 <= n <= 32 && c.pc + n < |c.code| && c.code[c.pc] == PUSH1 + n - 1
    requires FromBE(c.code[c.pc + 1..c.pc + 1 + n]) == v && |c.s| < MAX_STACK
    ensures Step(env, m) == Running(With(m, At(c, c.pc + 1 + n, [v] + c.s, c.mem)))
  {
    NextTurn(env, m, c, c.(s := [v] + c.s, pc := c.pc + 1 + n, pcChanged := true));
  }

  lemma ByteValue(code: seq<Byte>, p: nat)
    requires p < |code|
    ensures FromBE(code[p..p + 1]) == code[p]
  {
    var b := code[p..p + 1];
    assert b[..|b| - 1] == [];
  }

  lemma Store8Turn(env: Env, m: Machine, c: Ctx, offset: nat, b: Byte)
    requires Solo(m, c) && c.pc < |c.code| && c.code[c.pc] == MSTORE8 && !c.pcChanged
    requires offset < 0x100 && c.s == [offset, b]
    ensures Step(env, m) == Running(With(m, At(c, c.pc + 1, [], Grow(c.mem, offset + 1)[offset := b])))
  {
    assert c.s[1..] == [b] && c.s[1..][1..] == [];
    NextTurn(env, m, c, c.(s := [], mem := Grow(c.mem, offset + 1)[offset := b]));
  }

  /** What RETURN hands out for the range at address 0: memory, grown by zeros as needed. */
  function Front(mem: seq<Byte>, size: nat): (r: seq<Byte>)
    ensures |r| == size
  {
    Grow(mem, size)[..size]
  }

  /** RETURN of the outermost context ends the run with the memory slice as its output. */
  lemma ReturnTurn(env: Env, m: Machine, c: Ctx, size: nat)
    requires Solo(m, c) && c.pc < |c.code| && c.code[c.pc] == RETURN && size <= MAX_MEM
    requires c.s == [0, size]
    ensures Step(env, m)
            == Finished(Machine([], m.w, m.result.(er := ExitReturned, output := Front(c.mem, size))))
  {
    assert c.s[1..] == [size] && c.s[1..][1..] == [];
    var g := Grow(c.mem, size);
    assert g[0..0 + size] == g[..size];
    assert ReturnData(c) == Ok(g[..size]);
    assert [c][..0] == [];
  }

  lemma {:induction false} RunThen(env: Env, m: Machine, a: nat, m1: Machine, b: nat)
    requires m.ctxts != [] && Nested(m.ctxts) && Run(env, m, a) == Running(m1)
    ensures Run(env, m, a + b) == Run(env, m1, b)
    decreases a
  {
    hide Step;
    if a > 0 { RunThen(env, Step(env, m).m, a - 1, m1, b); }
  }

  // ----- The string program -----

  /** The memory after `k` stores; addresses wrap at 256. */
  function Stored(s: seq<Byte>, k: nat): (mem: seq<Byte>)
    requires k <= |s|
    ensures |mem| == if k <= 0x100 then k else 0x100
  {
    if k == 0 then [] else Grow(Stored(s, k - 1), (k - 1) % 0x100 + 1)[(k - 1) % 0x100 := s[k - 1]]
  }

  lemma {:induction false} StoredPrefix(s: seq<Byte>, k: nat)
    requires k <= |s| && k <= 0x100
    ensures Stored(s, k) == s[..k]
  {
    if k > 0 {
      StoredPrefix(s, k - 1);
      assert s[..k] == s[..k - 1] + [s[k - 1]];
    }
  }

  /** Five bytes of the program per character, three turns each. */
  lemma {:induction false} CodeAt(s: seq<Byte>, n: nat, k: nat)
    requires k < n <= |s|
    ensures StoreBytes(s, n)[5 * k..5 * k + 5] == StoreByte(s[k], k)
  {
    if k < n - 1 {
      CodeAt(s, n - 1, k);
      assert StoreBytes(s, n)[5 * k..5 * k + 5] == StoreBytes(s, n - 1)[5 * k..5 * k + 5];
    }
  }

  lemma HelloCodeAt(s: seq<Byte>, k: nat)
    ensures |HelloCode(s)| == 5 * |s| + 5
    ensures k < |s| ==> HelloCode(s)[5 * k..5 * k + 5] == StoreByte(s[k], k)
    ensures k == |s| ==> HelloCode(s)[5 * k..5 * k + 5] == ReturnSlice(|s| + 1)
  {
    if k < |s| {
      CodeAt(s, |s|, k);
      assert HelloCode(s)[5 * k..5 * k + 5] == StoreBytes(s, |s|)[5 * k..5 * k + 5];
    }
  }

  lemma FiveAt(code: seq<Byte>, p: nat, a: Byte, b: Byte, c: Byte, d: Byte, e: Byte)
    requires p + 5 <= |code| && code[p..p + 5] == [a, b, c, d, e]
    ensures code[p] == a && code[p + 1] == b && code[p + 2] == c && code[p + 3] == d && code[p + 4] == e
  {
    var part := code[p..p + 5];
    assert part[0] == a && part[1] == b && part[2] == c && part[3] == d && part[4] == e;
  }

  /** Two pushes, used by both halves of the program. */
  lemma TwoPushes(env: Env, m: Machine, c: Ctx, x: Byte, y: Byte)
    requires Solo(m, c) && c.s == [] && c.pc + 4 < |c.code|
    requires c.code[c.pc] == PUSH1 && c.code[c.pc + 1] == x && c.code[c.pc + 2] == PUSH1 && c.code[c.pc + 3] == y
    ensures Nested(m.ctxts) && Run(env, m, 2) == Running(With(m, At(c, c.pc + 4, [y, x], c.mem)))
  {
    hide Step, FromBE;
    ByteValue(c.code, c.pc + 1);
    ByteValue(c.code, c.pc + 3);
    PushTurn(env, m, c, 1, x);
    var c1 := At(c, c.pc + 2, [x], c.mem);
    assert [x] + [] == [x];
    PushTurn(env, With(m, c1), c1, 1, y);
    assert [y] + [x] == [y, x];
    OneTurn(env, m);
    OneTurn(env, With(m, c1));
    RunThen(env, m, 1, With(m, c1), 1);
  }

  /** One character of the program: two pushes and a store. */
  lemma StoreRound(env: Env, m: Machine, c: Ctx, b: Byte, i: nat)
    requires Solo(m, c) && c.s == [] && c.pc + 5 <= |c.code| && c.code[c.pc..c.pc + 5] == StoreByte(b, i)
    ensures Nested(m.ctxts)
    ensures Run(env, m, 3)
            == Running(With(m, At(c, c.pc + 5, [], Grow(c.mem, i % 0x100 + 1)[i % 0x100 := b])))
  {
    hide Step, Grow, ToBE;
    FiveAt(c.code, c.pc, PUSH1, b, PUSH1, i % 0x100, MSTORE8);
    TwoPushes(env, m, c, b, i % 0x100);
    var c2 := At(c, c.pc + 4, [i % 0x100, b], c.mem);
    Store8Turn(env, With(m, c2), c2, i % 0x100, b);
    OneTurn(env, With(m, c2));
    RunThen(env, m, 2, With(m, c2), 1);
  }

  lemma OneTurn(env: Env, m: Machine)
    requires m.ctxts != [] && Nested(m.ctxts)
    ensures Run(env, m, 1) == Step(env, m)
  {
    hide Step;
  }

  lemma {:induction false} HelloRun(env: Env, m: Machine, c: Ctx, s: seq<Byte>, k: nat)
    requires Solo(m, c) && c.code == HelloCode(s) && c.pc == 0 && c.s == [] && c.mem == [] && k <= |s|
    ensures Nested(m.ctxts) && Run(env, m, 3 * k) == Running(With(m, AfterStores(c, s, k)))
  {
    hide Step, HelloCode, Stored, StoreByte;
    if k == 0 {
      assert With(m, c) == m;
    } else {
      var j := k - 1;
      HelloRun(env, m, c, s, j);
      HelloCodeAt(s, j);
      var c1 := AfterStores(c, s, j);
      StoreRound(env, With(m, c1), c1, s[j], j);
      StoredStep(s, j);
      RunThen(env, m, 3 * j, With(m, c1), 3);
      assert 3 * j + 3 == 3 * k;
    }
  }

  /** The context after `k` characters; before the first its counter is still marked as set. */
  function AfterStores(c: Ctx, s: seq<Byte>, k: nat): Ctx
    requires k <= |s|
  {
    if k == 0 then c else At(c, 5 * k, [], Stored(s, k))
  }

  lemma StoredStep(s: seq<Byte>, j: nat)
    requires j < |s|
    ensures |Stored(s, j)| >= j % 0x100 && Stored(s, 0) == []
    ensures Stored(s, j + 1) == Grow(Stored(s, j), j % 0x100 + 1)[j % 0x100 := s[j]]
  {
  }

  /** Running the generated program returns `|s| + 1` bytes (modulo 256) of what was stored. */
  lemma HelloReturns(env: Env, m: Machine, c: Ctx, s: seq<Byte>)
    requires Solo(m, c) && c.code == HelloCode(s) && c.pc == 0 && c.s == [] && c.mem == []
    ensures Nested(m.ctxts)
    ensures var r := (|s| + 1) % 0x100;
            Run(env, m, 3 * |s| + 3) == Finished(Machine([], m.w,
              m.result.(er := ExitReturned, output := Front(Stored(s, |s|), r))))
  {
    hide Step, HelloCode, Front, Stored;
    var k, r := |s|, (|s| + 1) % 0x100;
    HelloRun(env, m, c, s, k);
    var c1 := AfterStores(c, s, k);
    HelloCodeAt(s, k);
    StoredNone(s);
    ReturnRound(env, With(m, c1), c1, r);
    RunThen(env, m, 3 * k, With(m, c1), 3);
  }

  lemma StoredNone(s: seq<Byte>)
    ensures Stored(s, 0) == []
  {
  }

  /** The closing instructions of both programs. */
  lemma ReturnRound(env: Env, m: Machine, c: Ctx, r: Byte)
    requires Solo(m, c) && c.s == [] && c.pc + 5 <= |c.code| && c.code[c.pc..c.pc + 5] == [PUSH1, r, PUSH1, 0, RETURN]
    ensures Nested(m.ctxts)
    ensures Run(env, m, 3)
            == Finished(Machine([], m.w, m.result.(er := ExitReturned, output := Front(c.mem, r))))
  {
    hide Step, Front;
    FiveAt(c.code, c.pc, PUSH1, r, PUSH1, 0, RETURN);
    TwoPushes(env, m, c, r, 0);
    var c2 := At(c, c.pc + 4, [0, r], c.mem);
    ReturnTurn(env, With(m, c2), c2, r);
    OneTurn(env, With(m, c2));
    RunThen(env, m, 2, With(m, c2), 1);
  }

  /** The outcome of a finished run. */
  predicate Delivers(env: Env, m: Machine, n: nat, output: seq<Byte>)
    requires m.ctxts != [] && Nested(m.ctxts)
  {
    var st := Run(env, m, n);
    st.Finished? && st.m.result.er == ExitReturned && st.m.result.output == output
  }

  /** From any call of `run` on an account holding the program for `s`, the output is `s` and a zero
      byte exactly for strings of at most 254 bytes. */
  lemma HelloWorld(env: Env, caller: Word, callee: Word, input: seq<Byte>, callValue: Word, w: World, s: seq<Byte>)
    requires Lookup(w, callee).code == HelloCode(s)
    ensures Delivers(env, Start(caller, callee, input, callValue, w), 3 * |s| + 3, s + [0]) <==> |s| <= 254
  {
    hide Run, HelloCode, Stored, Front, Lookup;
    var m := Start(caller, callee, input, callValue, w);
    HelloReturns(env, m, m.ctxts[0], s);
    HelloOutput(s);
  }

  lemma HelloOutput(s: seq<Byte>)
    ensures Front(Stored(s, |s|), (|s| + 1) % 0x100) == s + [0] <==> |s| <= 254
  {
    hide Stored, Front;
    var r := (|s| + 1) % 0x100;
    if |s| <= 254 {
      assert r == |s| + 1;
      ShortOutput(s);
    } else {
      assert |Front(Stored(s, |s|), r)| == r < |s + [0]|;
    }
  }

  lemma ShortOutput(s: seq<Byte>)
    requires |s| <= 254
    ensures Front(Stored(s, |s|), |s| + 1) == s + [0]
  {
    hide Stored, Front;
    StoredPrefix(s, |s|);
    assert s[..|s|] == s;
    GrowByOne(s);
  }

  lemma GrowByOne(s: seq<Byte>)
    ensures Front(s, |s| + 1) == s + [0]
  {
  }

  // ----- The sum program -----

  lemma WordPushTurn(env: Env, m: Machine, c: Ctx, v: Word)
    requires Solo(m, c) && c.pc + 32 < |c.code| && c.code[c.pc..c.pc + 33] == PushWord(v) && |c.s| < MAX_STACK
    ensures Step(env, m) == Running(With(m, At(c, c.pc + 33, [v] + c.s, c.mem)))
  {
    assert c.code[c.pc] == PUSH32 by {
      assert c.code[c.pc..c.pc + 33][0] == PushWord(v)[0];
    }
    assert c.code[c.pc + 1..c.pc + 33] == PushWord(v)[1..] == ToBE(v, 32) by {
      assert c.code[c.pc + 1..c.pc + 33] == c.code[c.pc..c.pc + 33][1..];
    }
    Power256Bytes(32);
    FromToBE(v, 32);
    PushTurn(env, m, c, 32, v);
  }

  lemma AddTurn(env: Env, m: Machine, c: Ctx, x: Word, y: Word)
    requires Solo(m, c) && c.pc < |c.code| && c.code[c.pc] == ADD && !c.pcChanged && c.s == [x, y]
    ensures Step(env, m) == Running(With(m, At(c, c.pc + 1, [WrapWord(x + y)], c.mem)))
  {
    assert c.s[1..] == [y] && c.s[1..][1..] == [];
    assert [WrapWord(x + y)] + [] == [WrapWord(x + y)];
    NextTurn(env, m, c, c.(s := [WrapWord(x + y)]));
  }

  lemma StoreTurn(env: Env, m: Machine, c: Ctx, v: Word)
    requires Solo(m, c) && c.pc < |c.code| && c.code[c.pc] == MSTORE && !c.pcChanged && c.s == [0, v] && c.mem == []
    ensures Step(env, m) == Running(With(m, At(c, c.pc + 1, [], ToBE(v, 32))))
  {
    assert c.s[1..] == [v] && c.s[1..][1..] == [];
    var g := Grow([], 32);
    assert g[..0] + ToBE(v, 32) + g[32..] == ToBE(v, 32);
    NextTurn(env, m, c, c.(s := [], mem := ToBE(v, 32)));
  }

  /** For all words, the sum program returns the big-endian bytes of `(a + b) mod 2^256`. */
  lemma SumRun(env: Env, m: Machine, c: Ctx, a: Word, b: Word)
    requires Solo(m, c) && c.code == SumCode(a, b) && c.pc == 0 && c.s == [] && c.mem == []
    ensures Nested(m.ctxts) && Delivers(env, m, 8, ToBE(WrapWord(a + b), 32))
  {
    var v := WrapWord(a + b);
    SumCodeAt(a, b);
    hide Step, SumCode, PushWord;
    WordPushTurn(env, m, c, a);
    assert [a] + [] == [a] && [b] + [a] == [b, a];
    var c1 := At(c, 33, [a], []);
    WordPushTurn(env, With(m, c1), c1, b);
    var c2 := At(c, 66, [b, a], []);
    AddTurn(env, With(m, c2), c2, b, a);
    var c3 := At(c, 67, [v], []);
    ByteValue(c.code, 68);
    PushTurn(env, With(m, c3), c3, 1, 0);
    var c4 := At(c, 69, [0, v], []);
    assert [0] + [v] == [0, v];
    StoreTurn(env, With(m, c4), c4, v);
    var c5 := At(c, 70, [], ToBE(v, 32));
    ReturnRound(env, With(m, c5), c5, 0x20);
    assert Front(ToBE(v, 32), 0x20) == ToBE(v, 32);
    SixthTurn(env, m, With(m, c1), With(m, c2), With(m, c3), With(m, c4), With(m, c5));
    RunThen(env, m, 5, With(m, c5), 3);
  }

  lemma SixthTurn(env: Env, m0: Machine, m1: Machine, m2: Machine, m3: Machine, m4: Machine, m5: Machine)
    requires m0.ctxts != [] && Nested(m0.ctxts) && Step(env, m0) == Running(m1) && Step(env, m1) == Running(m2)
    requires Step(env, m2) == Running(m3) && Step(env, m3) == Running(m4) && Step(env, m4) == Running(m5)
    ensures Run(env, m0, 5) == Running(m5)
  {
    hide Step;
    assert Run(env, m4, 1) == Running(m5);
    assert Run(env, m3, 2) == Running(m5);
    assert Run(env, m2, 3) == Running(m5);
    assert Run(env, m1, 4) == Running(m5);
  }

  lemma SumCodeAt(a: Word, b: Word)
    ensures var code := SumCode(a, b);
            && |code| == 75 && code[0..33] == PushWord(a) && code[33..66] == PushWord(b)
            && code[66] == ADD && code[67] == PUSH1 && code[68] == 0 && code[69] == MSTORE
            && code[70..75] == [PUSH1, 0x20, PUSH1, 0, RETURN]
  {
  }

  /** Running the sum program from any call of `run` returns the sum. */
  lemma SumOfTwo(env: Env, caller: Word, callee: Word, input: seq<Byte>, callValue: Word, w: World, a: Word, b: Word)
    requires Lookup(w, callee).code == SumCode(a, b)
    ensures Delivers(env, Start(caller, callee, input, callValue, w), 8, ToBE((a + b) % TWO256, 32))
  {
    hide Delivers, SumCode;
    var m := Start(caller, callee, input, callValue, w);
    SumRun(env, m, m.ctxts[0], a, b);
  }
}
