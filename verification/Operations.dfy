/** The opcodes of src/processor.cpp that touch nothing but the running context. Each method is the
    code's own sequence of pops, computations and pushes, proved against the step function. */
module Operations {
  import opened Words
  import opened Bytecode
  import opened Alu
  import opened Evm
  import opened State
  import opened Execution
  import opened Util

  /** How a method that may throw leaves the operand stack. */
  predicate Leaves(r: Exc<()>, s: seq<Word>, spec: Exc<seq<Word>>) {
    match spec
    case Ok(s1) => r == Ok(()) && s == s1
    case Throw(e) => r == Throw(e)
  }

  predicate LeavesBoth(r: Exc<()>, s: seq<Word>, mem: seq<Byte>, spec: Exc<(seq<Word>, seq<Byte>)>) {
    match spec
    case Ok((s1, mem1)) => r == Ok(()) && s == s1 && mem == mem1
    case Throw(e) => r == Throw(e)
  }

  /** How an opcode ends: normally, with an EVM exception, or with one that leaves `run`. */
  datatype Signal = Completed | Raised(error: ErrorType) | Foreign

  function SignalOf(r: Exc<()>): Signal {
    if r.Ok? then Completed else Raised(r.error)
  }

  /** How a method leaves the running context and the world, when no context comes or goes. */
  predicate Did(sig: Signal, c: Ctx, w: World, o: Outcome) {
    match o
    case Next(c1, w1) => sig.Completed? && c == c1 && w == w1
    case Threw(e, w1) => sig == Raised(e) && w == w1
    case Crashed(w1) => sig.Foreign? && w == w1
    case _ => false
  }

  /** `pop_addr`: the operand masked to 160 bits. */
  method PopAddr(s: Stack) returns (r: Exc<Word>)
    modifies s
    ensures old(s.st) == [] ==> r == Throw(OutOfBounds)
    ensures old(s.st) != [] ==> r == Ok(old(s.st)[0] % TWO160) && s.st == old(s.st)[1..]
  {
    hide And;
    var v :- s.Pop();
    AddressMask(v, 160);
    return Ok(And(v, TWO160 - 1));
  }

  /** A storage key and its new value. */
  method PopEntry(s: Stack) returns (r: Exc<(Word, Word)>)
    modifies s
    ensures r == EntryOf(old(s.st))
    ensures r.Ok? ==> s.st == old(s.st)[1..][1..]
  {
    var k :- s.Pop();
    var v :- s.Pop();
    return Ok((k, v));
  }

  function EntryOf(s: seq<Word>): Exc<(Word, Word)> {
    if |s| < 2 then Throw(OutOfBounds) else Ok((s[0], s[1]))
  }

  lemma AddressMask(v: Word, n: nat)
    requires n == 160
    ensures And(v, TWO160 - 1) == v % TWO160
  {
    hide And, Exp;
    var a, b := 64, 32;
    Power64(a);
    Power32(b);
    ExpAdd(2, a, a);
    ExpAdd(2, a + a, b);
    assert a + a + b == n;
    AndLowMask(v, n);
  }

  // ----- Arithmetic, comparison, bits -----

  method ComputeBinary(op: Byte, x: Word, y: Word) returns (z: Word)
    requires IsBinary(op) && op != SGT
    ensures z == Binary(op, x, y)
  {
    if op == ADD {
      z := (x + y) % TWO256;
    } else if op == MUL {
      z := (x * y) % TWO256;
    } else if op == SUB {
      z := (x as int - y) % TWO256;
    } else if op == DIV {
      z := if y == 0 then 0 else Quotient(x, y);
    } else if op == SDIV {
      z := ComputeSDiv(x, y);
    } else if op == MOD {
      z := if y == 0 then 0 else x % y;
    } else if op == SMOD {
      z := ComputeSMod(x, y);
    } else if op == SIGNEXTEND {
      z := ComputeSignExtend(x, y);
    } else if op == LT {
      z := if x < y then 1 else 0;
    } else if op == GT {
      z := if x > y then 1 else 0;
    } else if op == SLT {
      z := ComputeSlt(x, y);
    } else if op == EQ {
      z := if x == y then 1 else 0;
    } else if op == AND {
      z := AndWord(x, y);
    } else if op == OR {
      z := OrWord(x, y);
    } else {
      z := XorWord(x, y);
    }
  }

  method Arithmetic(op: Byte, s: Stack) returns (r: Exc<()>)
    requires IsBinary(op) && op != SGT
    modifies s
    ensures Leaves(r, s.st, BinaryStack(op, old(s.st)))
  {
    hide Binary;
    var x :- s.Pop();
    var y :- s.Pop();
    var z := ComputeBinary(op, x, y);
    r := s.Push(z);
  }

  function BinaryStack(op: Byte, s: seq<Word>): Exc<seq<Word>> {
    var (x, s1) :- Pop(s);
    var (y, s2) :- Pop(s1);
    Push(s2, Binary(op, x, y))
  }

  method Slt(s: Stack) returns (r: Exc<()>)
    modifies s
    ensures Leaves(r, s.st, BinaryStack(SLT, old(s.st)))
  {
    var x :- s.Pop();
    var y :- s.Pop();
    var z := ComputeSlt(x, y);
    r := s.Push(z);
  }

  /** Swaps the operands and goes on as SLT. */
  method Sgt(s: Stack) returns (r: Exc<()>)
    modifies s
    ensures Leaves(r, s.st, BinaryStack(SGT, old(s.st)))
  {
    var _ :- s.Swap(1);
    assert s.st == [old(s.st)[1], old(s.st)[0]] + old(s.st)[2..];
    assert s.st[1..][1..] == old(s.st)[2..] == old(s.st)[1..][1..];
    r := Slt(s);
  }

  method Modular(op: Byte, s: Stack) returns (r: Exc<()>)
    requires op == ADDMOD || op == MULMOD
    modifies s
    ensures forall env: Env, c: Ctx, w: World :: c.s == old(s.st) ==> Leaves(r, s.st, StackOp(op, env, c, w))
  {
    var x :- s.Pop();
    var y :- s.Pop();
    var m :- s.Pop();
    if m == 0 {
      r := s.Push(0);
    } else {
      r := s.Push(if op == ADDMOD then AddMod(x, y, m) else MulMod(x, y, m));
    }
  }

  method Exponentiate(s: Stack) returns (r: Exc<()>)
    modifies s
    ensures forall env: Env, c: Ctx, w: World :: c.s == old(s.st) ==> Leaves(r, s.st, StackOp(EXP, env, c, w))
  {
    hide Power;
    var b :- s.Pop();
    var e :- s.Pop64();
    var v := PowerBySquaring(b, e);
    r := s.Push(v);
  }

  /** Squares the base for every bit of the exponent, wrapping each product. */
  method PowerBySquaring(b: Word, e: U64) returns (result: Word)
    ensures result == Power(b, e)
  {
    hide Exp, WrapWord;
    var base: Word, exponent: nat := b, e;
    result := 1;
    Unchanged(Exp(b, e));
    while exponent != 0
      invariant WrapWord(result * Exp(base, exponent)) == Power(b, e)
      decreases exponent
    {
      SquareStep(result, base, exponent);
      if exponent % 2 != 0 {
        result := WrapWord(result * base);
      }
      base := WrapWord(base * base);
      exponent := exponent / 2;
    }
    PowerEnds(result, base);
  }

  lemma Unchanged(x: nat)
    ensures 1 * x == x
  {
  }

  lemma PowerEnds(x: Word, y: nat)
    ensures WrapWord(x * Exp(y, 0)) == x
  {
    DivModUnique(x, TWO256, 0, x);
  }

  /** One turn keeps the product of the result and the remaining power, modulo 2^256. */
  lemma SquareStep(r: nat, y: nat, e: nat)
    requires e > 0
    ensures var r' := if e % 2 != 0 then WrapWord(r * y) else r;
            WrapWord(r' * Exp(WrapWord(y * y), e / 2)) == WrapWord(r * Exp(y, e))
  {
    hide WrapWord, Exp;
    var k := e / 2;
    var p := Exp(y * y, k);
    HalvedPower(y, e, k);
    if e % 2 != 0 {
      WrapRight(WrapWord(r * y), y * y, k);
      WrapLeft(r * y, p);
      Regroup(r, y, p);
    } else {
      WrapRight(r, y * y, k);
    }
  }

  lemma HalvedPower(y: nat, e: nat, k: nat)
    requires e > 0 && k == e / 2
    ensures Exp(y, e) == if e % 2 != 0 then y * Exp(y * y, k) else Exp(y * y, k)
  {
    assert Exp(y, 1) == y * 1;
    assert Exp(y, 2) == y * y;
    if e % 2 != 0 { assert Exp(y, e) == y * Exp(y, 2 * k); }
    hide Exp;
    ExpMul(y, 2, k);
  }

  lemma Regroup(a: nat, b: nat, c: nat)
    ensures (a * b) * c == a * (b * c)
  {
  }

  /** A factor may be wrapped before multiplying. */
  lemma WrapLeft(a: nat, b: nat)
    ensures WrapWord(WrapWord(a) * b) == WrapWord(a * b)
  {
    var q, r := DivMod(a, TWO256);
    WrapFactor(a, b, q, r);
  }

  lemma WrapFactor(a: nat, b: nat, q: nat, r: nat)
    requires a == TWO256 * q + r
    ensures WrapWord(r * b) == WrapWord(a * b)
  {
    assert a * b == TWO256 * (q * b) + r * b;
    ModShift(r * b, TWO256, q * b);
  }

  /** So may the base of a power. */
  lemma {:induction false} WrapRight(x: nat, y: nat, k: nat)
    ensures WrapWord(x * Exp(WrapWord(y), k)) == WrapWord(x * Exp(y, k))
    decreases k
  {
    hide WrapWord;
    var z := WrapWord(y);
    if k > 0 {
      var a, b := Exp(z, k - 1), Exp(y, k - 1);
      WrapRight(z * x, y, k - 1);
      Factors(x, z, a);
      Factors(x, z, b);
      Factors(x, y, b);
      WrapLeft(y, x * b);
    }
  }

  lemma Factors(x: nat, y: nat, e: nat)
    ensures x * (y * e) == (y * x) * e == y * (x * e)
  {
  }

  method Unary(op: Byte, s: Stack) returns (r: Exc<()>)
    requires op == ISZERO || op == NOT
    modifies s
    ensures forall env: Env, c: Ctx, w: World :: c.s == old(s.st) ==> Leaves(r, s.st, StackOp(op, env, c, w))
  {
    var x :- s.Pop();
    r := s.Push(if op == NOT then TWO256 - 1 - x else if x == 0 then 1 else 0);
  }

  /** Out of range, the second operand is not popped. */
  method ByteOp(s: Stack) returns (r: Exc<()>)
    modifies s
    ensures forall env: Env, c: Ctx, w: World :: c.s == old(s.st) ==> Leaves(r, s.st, StackOp(BYTE, env, c, w))
  {
    var idx :- s.Pop();
    if idx >= 32 {
      r := s.Push(0);
      return;
    }
    var shift := 256 - 8 - 8 * idx;
    var mask := 255 * Exp(2, shift);
    var val :- s.Pop();
    ByteByMask(idx, val);
    r := s.Push(Shr(And(val, mask), shift));
  }

  /** Masking and shifting down picks the byte. */
  lemma ByteByMask(idx: nat, v: Word)
    requires idx < 32
    ensures Shr(And(v, 255 * Exp(2, 248 - 8 * idx)), 248 - 8 * idx) == ByteAt(idx, v)
  {
    var k := 31 - idx;
    assert 248 - 8 * idx == 8 * k;
    MaskedByte(v, 8 * k, 255);
    EightBits(8);
    ExpMul(2, 8, k);
    Digit(v, 32, idx);
  }

  lemma MaskedByte(v: nat, s: nat, m: nat)
    requires m == 255
    ensures Exp(2, s) > 0
    ensures Shr(And(v, m * Exp(2, s)), s) == (v / Exp(2, s)) % 0x100
  {
    hide And, Exp;
    AndShifted(v, m, s);
    var e, n := Exp(2, s), 8;
    EightBits(n);
    AndLowMask(v / e, n);
    var t := (v / e) % 0x100;
    DivModUnique(t * e, e, t, 0);
  }

  lemma EightBits(n: nat)
    requires n == 8
    ensures Exp(2, n) == 0x100
  {
    assert Exp(2, 4) == 0x10;
    ExpDouble(2, 4, 0x10);
  }

  /** The opcodes whose whole effect is on the operand stack. */
  method StackOperation(op: Byte, env: Env, ctxt: Context, ghost w: World) returns (r: Exc<()>)
    requires Lookup(w, ctxt.acc.address) == ctxt.acc.Value()
    modifies ctxt.s
    ensures Leaves(r, ctxt.s.st, StackOp(op, env, old(ctxt.View()), w))
  {
    hide Binary, ReadOp, Power, ByteAt;
    var s := ctxt.s;
    if op == SGT {
      r := Sgt(s);
    } else if IsBinary(op) {
      r := Arithmetic(op, s);
    } else if op == ADDMOD || op == MULMOD {
      r := Modular(op, s);
    } else if op == EXP {
      r := Exponentiate(s);
    } else if op == ISZERO || op == NOT {
      r := Unary(op, s);
    } else if op == BYTE {
      r := ByteOp(s);
    } else if op == POP {
      var x := s.Pop();
      r := if x.Throw? then Throw(x.error) else Ok(());
    } else if DUP1 <= op <= DUP16 {
      r := s.Dup(op - DUP1);
    } else if SWAP1 <= op <= SWAP16 {
      r := s.Swap(op - SWAP1 + 1);
      assert r.Ok? ==> s.st == old(s.st)[0 := old(s.st)[op - SWAP1 + 1]][op - SWAP1 + 1 := old(s.st)[0]];
    } else if op == JUMPDEST {
      return Ok(());
    } else {
      r := Read(op, env, ctxt, w);
    }
  }

  // ----- Opcodes that push something read from the surroundings -----

  method Read(op: Byte, env: Env, ctxt: Context, ghost w: World) returns (r: Exc<()>)
    requires Lookup(w, ctxt.acc.address) == ctxt.acc.Value()
    modifies ctxt.s
    ensures Leaves(r, ctxt.s.st, ReadOp(op, env, old(ctxt.View()), w))
  {
    hide InputWord;
    var s := ctxt.s;
    if op == PC {
      r := s.Push(ctxt.pc % TWO256);
    } else if op == MSIZE {
      var usedMem := (|ctxt.mem| + 32 - 1) / 32;
      r := s.Push(usedMem * 32);
    } else if op == CODESIZE {
      r := s.Push(|ctxt.acc.code|);
    } else if op == ADDRESS {
      r := s.Push(ctxt.acc.address);
    } else if op == CALLER {
      r := s.Push(ctxt.caller);
    } else if op == CALLVALUE {
      r := s.Push(ctxt.callValue);
    } else if op == CALLDATASIZE {
      r := s.Push(|ctxt.input|);
    } else if op == SLOAD {
      r := SLoad(env, ctxt, w);
    } else if op == BLOCKHASH {
      r := BlockHash(env, ctxt, w);
    } else if op == ORIGIN || op == GASPRICE || (COINBASE <= op <= GASLIMIT) || op == GAS {
      r := s.Push(env.query(op));
    } else {
      return Throw(IllegalInstruction);
    }
  }

  method SLoad(env: Env, ctxt: Context, ghost w: World) returns (r: Exc<()>)
    requires Lookup(w, ctxt.acc.address) == ctxt.acc.Value()
    modifies ctxt.s
    ensures Leaves(r, ctxt.s.st, ReadOp(SLOAD, env, old(ctxt.View()), w))
  {
    var k :- ctxt.s.Pop();
    r := ctxt.s.Push(if k in ctxt.acc.storage then ctxt.acc.storage[k] else 0);
  }

  method BlockHash(env: Env, ctxt: Context, ghost w: World) returns (r: Exc<()>)
    modifies ctxt.s
    ensures Leaves(r, ctxt.s.st, ReadOp(BLOCKHASH, env, old(ctxt.View()), w))
  {
    var i :- ctxt.s.Pop64();
    r := ctxt.s.Push(if i >= 256 then 0 else env.blockHash(i % 256));
  }

  /** Adding the word size to the offset may overflow, which is not an EVM exception. */
  method CallDataLoad(ctxt: Context, ghost w: World) returns (sig: Signal)
    modifies ctxt.s
    ensures Did(sig, ctxt.View(), w, ExecLoad(old(ctxt.View()), w))
  {
    hide InputWord;
    var offset := ctxt.s.Pop64();
    if offset.Throw? {
      return Raised(offset.error);
    }
    if (offset.value + 32) % TWO64 < offset.value {
      return Foreign;
    }
    var v := LoadInput(ctxt.input, offset.value);
    var r := ctxt.s.Push(v);
    return SignalOf(r);
  }

  /** The word is shifted together byte by byte, and once more by the rest where the input ends. */
  method LoadInput(input: Vector, offset: U64) returns (v: Word)
    requires offset + 32 < TWO64
    ensures v == InputWord(input, offset)
  {
    hide Window, FromBE, Exp, Shifted;
    v := 0;
    EmptyWindow(input, offset);
    var i := 0;
    while i < 32
      invariant 0 <= i <= 32 && v == FromBE(Window(input, offset, i, 0))
    {
      var j := (offset + i) % TWO64;
      assert j == offset + i;
      WindowGrows(input, offset, i);
      if j < |input| {
        v := Shifted(v, 0x100) + input[j];
      } else {
        v := Shifted(v, Exp(2, 8 * (32 - i)));
        return;
      }
      i := i + 1;
    }
  }

  lemma EmptyWindow(input: seq<Byte>, offset: nat)
    ensures FromBE(Window(input, offset, 0, 0)) == 0
  {
  }

  /** `v << k` for `p == 2^k`. */
  function Shifted(v: Word, p: nat): Word {
    (v * p) % TWO256
  }

  lemma WindowGrows(input: seq<Byte>, offset: nat, i: nat)
    requires i < 32
    ensures FromBE(Window(input, offset, i, 0)) < TWO256
    ensures var v := FromBE(Window(input, offset, i, 0));
            && (offset + i < |input| ==>
                  Shifted(v, 0x100) + input[offset + i] == FromBE(Window(input, offset, i + 1, 0)) < TWO256)
            && (offset + i >= |input| ==> Shifted(v, Exp(2, 8 * (32 - i))) == FromBE(Window(input, offset, 32, 0)))
  {
    var got := Window(input, offset, i, 0);
    ShortWord(got);
    if offset + i < |input| {
      ShiftIn(got, input[offset + i]);
      assert Window(input, offset, i + 1, 0) == got + [input[offset + i]];
    } else {
      ShiftZeros(got, 32 - i);
      assert Window(input, offset, 32, 0) == got + Zeros(32 - i);
    }
  }

  /** Shifting a byte into fewer than 32 loses nothing, and or-ing it in is adding it. */
  lemma ShiftIn(bs: seq<Byte>, b: Byte)
    requires |bs| < 32
    ensures FromBE(bs) < TWO256
    ensures FromBE(bs + [b]) == Shifted(FromBE(bs), 0x100) + b == Or(Shifted(FromBE(bs), 0x100), b) < TWO256
  {
    AppendByte(bs, b);
    ShortWord(bs + [b]);
    hide FromBE;
    ShiftByte(FromBE(bs), b);
  }

  lemma ShiftByte(x: nat, b: Byte)
    requires x * 0x100 + b < TWO256
    ensures x < TWO256 && Shifted(x, 0x100) == x * 0x100
    ensures Or(x * 0x100, b) == x * 0x100 + b
  {
    var k := 8;
    EightBits(k);
    hide Exp;
    OrDisjoint(x, b, k);
  }

  lemma AppendByte(bs: seq<Byte>, b: Byte)
    ensures FromBE(bs + [b]) == FromBE(bs) * 0x100 + b
  {
    assert (bs + [b])[..|bs|] == bs;
  }

  lemma ShortWord(bs: seq<Byte>)
    requires |bs| <= 32
    ensures FromBE(bs) < TWO256
  {
    FromBEBound(bs);
    ExpMonotone(0x100, |bs|, 32);
    Power256Bytes(32);
  }

  lemma ShiftZeros(bs: seq<Byte>, n: nat)
    requires |bs| + n == 32
    ensures FromBE(bs) < TWO256
    ensures FromBE(bs + Zeros(n)) == Shifted(FromBE(bs), Exp(2, 8 * n))
  {
    hide FromBE, Exp;
    FromBEConcat(bs, Zeros(n));
    FromBEZeros(n);
    ShortWord(bs);
    ShortWord(bs + Zeros(n));
    var k := 8;
    EightBits(k);
    ExpMul(2, k, n);
  }
}
