/** The interpreter of src/processor.cpp as a step function on values: a stack of contexts over a
    world of accounts. Contexts and accounts are values here, handlers are data; the module
    Processor runs the same steps on objects. */
module Evm {
  import opened Words
  import opened Bytecode
  import opened Alu
  import opened Signed

  const MAX_CALL_DEPTH: nat := 1024
  const MAX_STACK: nat := 1024
  const MAX_MEM: nat := 0x200_0000

  datatype ErrorType = OutOfBounds | OutOfGas | OutOfFunds | OverflowError | IllegalInstruction | NotImplemented

  /** A value, or the exception that was thrown instead. */
  datatype Exc<+T> = Ok(value: T) | Throw(error: ErrorType) {
    predicate IsFailure() { Throw? }
    function PropagateFailure<U>(): Exc<U> requires Throw? { Throw(error) }
    function Extract(): T requires Ok? { value }
  }

  // ----- The operand stack; the top is element 0 -----

  function Pop(s: seq<Word>): Exc<(Word, seq<Word>)> {
    if s == [] then Throw(OutOfBounds) else Ok((s[0], s[1..]))
  }

  function Pop64(s: seq<Word>): Exc<(U64, seq<Word>)> {
    var (v, s1) :- Pop(s);
    if v >= TWO64 then Throw(OutOfBounds) else Ok((v, s1))
  }

  function PopAddress(s: seq<Word>): Exc<(Word, seq<Word>)> {
    var (v, s1) :- Pop(s);
    Ok((v % TWO160, s1))
  }

  /** `push` refuses only at exactly the maximal size, which DUP can step over. */
  function Push(s: seq<Word>, v: Word): Exc<seq<Word>> {
    if |s| == MAX_STACK then Throw(OutOfBounds) else Ok([v] + s)
  }

  function Swap(s: seq<Word>, i: nat): Exc<seq<Word>> {
    if i >= |s| then Throw(OutOfBounds) else Ok(s[0 := s[i]][i := s[0]])
  }

  function Dup(s: seq<Word>, i: nat): Exc<seq<Word>> {
    if i >= |s| then Throw(OutOfBounds) else Ok([s[i]] + s)
  }

  // ----- Memory -----

  function Grow(mem: seq<Byte>, n: nat): (r: seq<Byte>)
    ensures |r| == if n <= |mem| then |mem| else n
  {
    if n <= |mem| then mem else mem + Zeros(n - |mem|)
  }

  /** `prepare_mem_access`: the memory grown to cover the range, even an empty one. */
  function Prepare(mem: seq<Byte>, offset: nat, size: nat): Exc<seq<Byte>> {
    if offset + size > MAX_MEM then Throw(OutOfBounds) else Ok(Grow(mem, offset + size))
  }

  /** `size` bytes of `src` from `offset` on, padded past its end. */
  function Window(src: seq<Byte>, offset: nat, size: nat, pad: Byte): (r: seq<Byte>)
    ensures |r| == size
  {
    seq(size, i => if 0 <= i && offset + i < |src| then src[offset + i] else pad)
  }

  /** `copy_mem_raw`: the window of the source written at `offDst`. */
  function CopyMem(dst: seq<Byte>, offDst: nat, src: seq<Byte>, offSrc: nat, size: nat, pad: Byte): Exc<seq<Byte>> {
    if size == 0 then Ok(dst)
    else if offDst + size > MAX_MEM then Throw(OutOfBounds)
    else
      var g := Grow(dst, offDst + size);
      Ok(g[..offDst] + Window(src, offSrc, size, pad) + g[offDst + size..])
  }

  // ----- The world -----

  datatype Account = Account(balance: Word, code: seq<Byte>, nonce: nat, storage: map<Word, Word>)

  const EMPTY_ACCOUNT := Account(0, [], 0, map[])

  datatype World = World(accounts: map<Word, Account>, destructs: seq<Word>)

  function Lookup(w: World, a: Word): Account {
    if a in w.accounts then w.accounts[a] else EMPTY_ACCOUNT
  }

  function SetAccount(w: World, a: Word, acc: Account): World {
    w.(accounts := w.accounts[a := acc])
  }

  /** `GlobalState::create`: `std::map::insert` keeps an account that is already there. */
  function CreateAccount(w: World, a: Word, balance: Word, code: seq<Byte>): World {
    if a in w.accounts then w else SetAccount(w, a, Account(balance, code, 0, map[]))
  }

  /** `GlobalState::get` creates an empty account for an unknown address. */
  function GetAccount(w: World, a: Word): World {
    CreateAccount(w, a, 0, [])
  }

  /** `Account::pay_to`. Both balances are read before either is written. */
  function PayTo(w: World, from: Word, to: Word, amount: Word): Exc<World> {
    var thisBalance, otherBalance := Lookup(w, from).balance, Lookup(w, to).balance;
    if amount > thisBalance then Throw(OutOfFunds)
    else if otherBalance + amount >= TWO256 then Throw(OverflowError)
    else
      var w1 := SetAccount(w, from, Lookup(w, from).(balance := thisBalance - amount));
      Ok(SetAccount(w1, to, Lookup(w1, to).(balance := otherBalance + amount)))
  }

  function SetCode(w: World, a: Word, code: seq<Byte>): World {
    SetAccount(w, a, Lookup(w, a).(code := code))
  }

  function SetStorage(w: World, a: Word, storage: map<Word, Word>): World {
    SetAccount(w, a, Lookup(w, a).(storage := storage))
  }

  /** What the interpreter asks its surroundings for: block and transaction data, hashing and
      contract addresses. */
  datatype Env = Env(
    query: Byte -> Word,
    blockHash: Byte -> Word,
    keccak: seq<Byte> -> Word,
    newAddress: (Word, nat) -> Word)

  // ----- Contexts -----

  /** The three closures of a context, by what they capture. */
  datatype Handler = Top | CallRet(offOut: nat, sizeOut: nat) | CreateRet(addr: Word)

  datatype Ctx = Ctx(
    pc: nat, pcChanged: bool, s: seq<Word>, mem: seq<Byte>,
    acc: Word, caller: Word, input: seq<Byte>, callValue: Word, code: seq<Byte>, handler: Handler)

  function NewCtx(caller: Word, acc: Word, input: seq<Byte>, code: seq<Byte>, callValue: Word, h: Handler): Ctx {
    Ctx(0, true, [], [], acc, caller, input, callValue, code, h)
  }

  function StepPc(c: Ctx): Ctx {
    if c.pcChanged then c.(pcChanged := false) else c.(pc := c.pc + 1)
  }

  /** What dispatching one opcode does to the running context, before any handler runs. */
  datatype Outcome =
    | Next(c: Ctx, w: World)
    | Threw(error: ErrorType, w: World)
    | Crashed(w: World)                  // an exception of another type leaves `run`
    | Returned(output: seq<Byte>, w: World)
    | Halted(w: World)
    | Entered(c: Ctx, child: Ctx, w: World)

  // ----- Opcodes that only use the operand stack -----

  function Binary(op: Byte, x: Word, y: Word): Word {
    if op == ADD then WrapWord(x + y)
    else if op == MUL then WrapWord(x * y)
    else if op == SUB then WrapWord(x - y)
    else if op == DIV then (if y == 0 then 0 else Quotient(x, y))
    else if op == SDIV then SDiv(x, y)
    else if op == MOD then (if y == 0 then 0 else x % y)
    else if op == SMOD then SMod(x, y)
    else if op == SIGNEXTEND then SignExtend(x, y)
    else if op == LT then Flag(x < y)
    else if op == GT then Flag(x > y)
    else if op == SLT then Flag(SignedWord(x) < SignedWord(y))
    else if op == SGT then Flag(SignedWord(x) > SignedWord(y))
    else if op == EQ then Flag(x == y)
    else if op == AND then AndWord(x, y)
    else if op == OR then OrWord(x, y)
    else XorWord(x, y)
  }

  predicate IsBinary(op: Byte) {
    (ADD <= op <= SMOD) || op == SIGNEXTEND || (LT <= op <= EQ) || (AND <= op <= XOR)
  }

  function Quotient(x: Word, y: Word): Word
    requires y != 0
  {
    QuotientFits(x, y);
    x / y
  }

  lemma QuotientFits(x: nat, y: nat)
    requires y > 0
    ensures 0 <= x / y <= x
  {
    var q, r := DivMod(x, y);
    QuotientShrinks(x, y, q, r);
  }

  function AndWord(x: Word, y: Word): Word {
    AndBound(x, y);
    And(x, y)
  }

  function OrWord(x: Word, y: Word): Word {
    Power256(256);
    OrBound(x, y, 256);
    Or(x, y)
  }

  function XorWord(x: Word, y: Word): Word {
    Power256(256);
    XorBound(x, y, 256);
    Xor(x, y)
  }

  function AddMod(x: Word, y: Word, m: Word): Word {
    if m == 0 then 0 else (x + y) % m
  }

  function MulMod(x: Word, y: Word, m: Word): Word {
    if m == 0 then 0 else (x * y) % m
  }

  /** EXP: the power modulo 2^256. */
  function Power(b: Word, e: U64): Word {
    WrapWord(Exp(b, e))
  }

  /** Opcodes whose whole effect is on the operand stack. */
  function StackOp(op: Byte, env: Env, c: Ctx, w: World): Exc<seq<Word>> {
    var s := c.s;
    if IsBinary(op) then
      var (x, s1) :- Pop(s);
      var (y, s2) :- Pop(s1);
      Push(s2, Binary(op, x, y))
    else if op == ADDMOD || op == MULMOD then
      var (x, s1) :- Pop(s);
      var (y, s2) :- Pop(s1);
      var (m, s3) :- Pop(s2);
      Push(s3, if op == ADDMOD then AddMod(x, y, m) else MulMod(x, y, m))
    else if op == EXP then
      var (b, s1) :- Pop(s);
      var (e, s2) :- Pop64(s1);
      Push(s2, Power(b, e))
    else if op == ISZERO || op == NOT then
      var (x, s1) :- Pop(s);
      Push(s1, if op == ISZERO then Flag(x == 0) else TWO256 - 1 - x)
    else if op == BYTE then
      var (idx, s1) :- Pop(s);
      if idx >= 32 then Push(s1, 0)
      else
        var (v, s2) :- Pop(s1);
        Push(s2, ByteAt(idx, v))
    else if op == POP then
      var (_, s1) :- Pop(s);
      Ok(s1)
    else if DUP1 <= op <= DUP16 then Dup(s, op - DUP1)
    else if SWAP1 <= op <= SWAP16 then Swap(s, op - SWAP1 + 1)
    else if op == JUMPDEST then Ok(s)
    else ReadOp(op, env, c, w)
  }

  /** Opcodes that push something read from the context, the account or the environment. */
  function ReadOp(op: Byte, env: Env, c: Ctx, w: World): Exc<seq<Word>> {
    var s := c.s;
    if op == PC then Push(s, WrapWord(c.pc))
    else if op == MSIZE then Push(s, WrapWord((|c.mem| + 31) / 32 * 32))
    else if op == CODESIZE then Push(s, WrapWord(|Lookup(w, c.acc).code|))
    else if op == ADDRESS then Push(s, c.acc)
    else if op == CALLER then Push(s, c.caller)
    else if op == CALLVALUE then Push(s, c.callValue)
    else if op == CALLDATASIZE then Push(s, WrapWord(|c.input|))
    else if op == SLOAD then
      var (k, s1) :- Pop(s);
      var st := Lookup(w, c.acc).storage;
      Push(s1, if k in st then st[k] else 0)
    else if op == BLOCKHASH then
      var (i, s1) :- Pop64(s);
      Push(s1, if i >= 256 then 0 else env.blockHash(i))
    else if op == ORIGIN || op == GASPRICE || (COINBASE <= op <= GASLIMIT) || op == GAS then
      Push(s, env.query(op))
    else Throw(IllegalInstruction)
  }

  /** The word CALLDATALOAD reads: 32 bytes of the input from `offset`, zeros past its end. */
  function InputWord(input: seq<Byte>, offset: nat): Word {
    WordOf(Window(input, offset, 32, 0))
  }

  function WordOf(bs: seq<Byte>): Word
    requires |bs| == 32
  {
    FromBEBound(bs);
    Power256Bytes(32);
    FromBE(bs)
  }

  // ----- Opcodes that also touch the memory -----

  predicate IsMemoryOp(op: Byte) {
    op == SHA3 || op == CALLDATACOPY || op == CODECOPY || (MLOAD <= op <= MSTORE8) || (LOG0 <= op <= LOG4)
  }

  function CopyOp(s: seq<Word>, mem: seq<Byte>, src: seq<Byte>): Exc<(seq<Word>, seq<Byte>)> {
    var (offDst, s1) :- Pop64(s);
    var (offSrc, s2) :- Pop64(s1);
    var (size, s3) :- Pop64(s2);
    var m :- CopyMem(mem, offDst, src, offSrc, size, 0);
    Ok((s3, m))
  }

  function PopMany(s: seq<Word>, n: nat): Exc<seq<Word>> {
    if n == 0 then Ok(s) else
      var (_, s1) :- Pop(s);
      PopMany(s1, n - 1)
  }

  function MemoryOp(op: Byte, env: Env, c: Ctx): Exc<(seq<Word>, seq<Byte>)>
    requires IsMemoryOp(op)
  {
    if op == CALLDATACOPY then CopyOp(c.s, c.mem, c.input)
    else if op == CODECOPY then CopyOp(c.s, c.mem, c.code)
    else
      var (offset, s1) :- Pop64(c.s);
      if op == MLOAD then
        var m :- Prepare(c.mem, offset, 32);
        var s2 :- Push(s1, WordOf(m[offset..offset + 32]));
        Ok((s2, m))
      else if op == MSTORE then
        var (word, s2) :- Pop(s1);
        var m :- Prepare(c.mem, offset, 32);
        Ok((s2, m[..offset] + ToBE(word, 32) + m[offset + 32..]))
      else if op == MSTORE8 then
        var (b, s2) :- Pop(s1);
        var m :- Prepare(c.mem, offset, 1);
        Ok((s2, m[offset := b % 0x100]))
      else
        var (size, s2) :- Pop64(s1);
        if op == SHA3 then
          var m :- Prepare(c.mem, offset, size);
          var s3 :- Push(s2, env.keccak(m[offset..offset + size]));
          Ok((s3, m))
        else
          var s3 :- PopMany(s2, op - LOG0);
          var m :- Prepare(c.mem, offset, size);
          Ok((s3, m))
  }

  // ----- Dispatch -----

  function OfStack(c: Ctx, w: World, r: Exc<seq<Word>>): Outcome {
    if r.Ok? then Next(c.(s := r.value), w) else Threw(r.error, w)
  }

  function OfMemory(c: Ctx, w: World, r: Exc<(seq<Word>, seq<Byte>)>): Outcome {
    if r.Ok? then Next(c.(s := r.value.0, mem := r.value.1), w) else Threw(r.error, w)
  }

  /** PUSH reads its immediate bytes; a truncated immediate throws. */
  function ExecPush(c: Ctx, w: World): Outcome
    requires c.pc < |c.code|
  {
    var next := NextInstruction(c.code, c.pc);
    if next - 1 >= |c.code| then Threw(OutOfBounds, w)
    else
      var r := Push(c.s, WrapWord(FromBE(c.code[c.pc + 1..next])));
      if r.Throw? then Threw(r.error, w)
      else Next(c.(s := r.value, pc := next, pcChanged := true), w)
  }

  function JumpTo(c: Ctx, w: World, dest: nat): Outcome {
    if dest in ValidDestinations(c.code, 0) then Next(c.(pc := dest, pcChanged := true), w)
    else Threw(IllegalInstruction, w)
  }

  function ExecJump(op: Byte, c: Ctx, w: World): Outcome {
    match Pop64(c.s)
    case Throw(e) => Threw(e, w)
    case Ok((dest, s1)) =>
      if op == JUMP then JumpTo(c.(s := s1), w, dest)
      else
        match Pop(s1)
        case Throw(e) => Threw(e, w)
        case Ok((cond, s2)) => if cond != 0 then JumpTo(c.(s := s2), w, dest) else Next(c.(s := s2), w)
  }

  predicate IsWorldOp(op: Byte) {
    op == BALANCE || op == EXTCODESIZE || op == EXTCODECOPY || op == SSTORE
  }

  /** Opcodes that may change the world without calling anyone. */
  function ExecWorld(op: Byte, c: Ctx, w: World): Outcome
    requires IsWorldOp(op)
  {
    if op == SSTORE then
      match Pop(c.s)
      case Throw(e) => Threw(e, w)
      case Ok((k, s1)) =>
        match Pop(s1)
        case Throw(e) => Threw(e, w)
        case Ok((v, s2)) =>
          var st := Lookup(w, c.acc).storage;
          Next(c.(s := s2), SetStorage(w, c.acc, if v == 0 then st - {k} else st[k := v]))
    else
      match PopAddress(c.s)
      case Throw(e) => Threw(e, w)
      case Ok((a, s1)) =>
        var w1 := GetAccount(w, a);
        if op == BALANCE then OfStack(c, w1, Push(s1, Lookup(w1, a).balance))
        else if op == EXTCODESIZE then OfStack(c, w1, Push(s1, WrapWord(|Lookup(w1, a).code|)))
        else OfMemory(c, w1, CopyOp(s1, c.mem, Lookup(w1, a).code))
  }

  function ExecReturn(c: Ctx, w: World): Outcome {
    var r := ReturnData(c);
    if r.Ok? then Returned(r.value, w) else Threw(r.error, w)
  }

  function ReturnData(c: Ctx): Exc<seq<Byte>> {
    var (offset, s1) :- Pop64(c.s);
    var (size, _) :- Pop64(s1);
    var m :- Prepare(c.mem, offset, size);
    Ok(m[offset..offset + size])
  }

  function ExecSelfdestruct(c: Ctx, w: World): Outcome {
    match PopAddress(c.s)
    case Throw(e) => Threw(e, w)
    case Ok((a, _)) =>
      var w1 := GetAccount(w, a);
      match PayTo(w1, c.acc, a, Lookup(w1, c.acc).balance)
      case Throw(e) => Threw(e, w1)
      case Ok(w2) => Halted(w2.(destructs := w2.destructs + [c.acc]))
  }

  /** The operands of CREATE: endowment, the grown memory, init code, remaining stack. */
  function CreateOperands(c: Ctx): Exc<(Word, seq<Byte>, seq<Byte>, seq<Word>)> {
    var (value, s1) :- Pop(c.s);
    var (offset, s2) :- Pop64(s1);
    var (size, s3) :- Pop64(s2);
    var m :- Prepare(c.mem, offset, size);
    Ok((value, m, m[offset..offset + size], s3))
  }

  function ExecCreate(env: Env, depth: nat, c: Ctx, w: World): Outcome {
    match CreateOperands(c)
    case Throw(e) => Threw(e, w)
    case Ok((value, m, initCode, s)) =>
      var a := env.newAddress(c.acc, Lookup(w, c.acc).nonce);
      var w1 := CreateAccount(w, a, value, []);
      match PayTo(w1, c.acc, a, value)
      case Throw(e) => Threw(e, w1)
      case Ok(w2) =>
        if depth >= MAX_CALL_DEPTH then Threw(OutOfBounds, w2)
        else Entered(c.(s := s, mem := m), NewCtx(c.acc, a, [], initCode, 0, CreateRet(a)), w2)
  }

  predicate IsCall(op: Byte) {
    op == CALL || op == CALLCODE || op == DELEGATECALL
  }

  datatype CallArgs = CallArgs(addr: Word, value: U64, offIn: U64, sizeIn: U64, offOut: U64, sizeOut: U64, s: seq<Word>)

  function CallOperands(op: Byte, s0: seq<Word>): Exc<CallArgs> {
    var (_, s1) :- Pop(s0);
    var (addr, s2) :- PopAddress(s1);
    var (value, s3) :- if op == DELEGATECALL then Ok((0, s2)) else Pop64(s2);
    var (offIn, s4) :- Pop64(s3);
    var (sizeIn, s5) :- Pop64(s4);
    var (offOut, s6) :- Pop64(s5);
    var (sizeOut, s7) :- Pop64(s6);
    Ok(CallArgs(addr, value, offIn, sizeIn, offOut, sizeOut, s7))
  }

  /** The memory of the caller grown over both windows, and the input copied from it. */
  function CallWindows(mem: seq<Byte>, a: CallArgs): Exc<(seq<Byte>, seq<Byte>)> {
    var m1 :- Prepare(mem, a.offOut, a.sizeOut);
    var m2 :- Prepare(m1, a.offIn, a.sizeIn);
    Ok((m2, m2[a.offIn..a.offIn + a.sizeIn]))
  }

  /** The context a call opcode pushes; the opcode fixes caller, account and call value. */
  function Callee(op: Byte, c: Ctx, a: CallArgs, input: seq<Byte>, code: seq<Byte>): Ctx {
    var h := CallRet(a.offOut, a.sizeOut);
    if op == CALL then NewCtx(c.acc, a.addr, input, code, a.value, h)
    else if op == CALLCODE then NewCtx(c.acc, c.acc, input, code, a.value, h)
    else NewCtx(c.caller, c.acc, input, code, c.callValue, h)
  }

  function ExecCall(op: Byte, depth: nat, c: Ctx, w: World): Outcome {
    match CallOperands(op, c.s)
    case Throw(e) => Threw(e, w)
    case Ok(a) =>
      if 1 <= a.addr <= 8 then Threw(NotImplemented, w)
      else
        var w1 := GetAccount(w, a.addr);
        match PayTo(w1, c.acc, a.addr, a.value)
        case Throw(e) => Threw(e, w1)
        case Ok(w2) => CallPaid(op, depth, c, a, w2)
  }

  /** A call once the value is paid: an account without code has succeeded already. */
  function CallPaid(op: Byte, depth: nat, c: Ctx, a: CallArgs, w: World): Outcome {
    var code := Lookup(w, a.addr).code;
    if code == [] then OfStack(c, w, Push(a.s, 1))
    else
      match CallWindows(c.mem, a)
      case Throw(e) => Threw(e, w)
      case Ok((m, input)) =>
        if depth >= MAX_CALL_DEPTH then Threw(OutOfBounds, w)
        else Entered(c.(s := a.s, mem := m), Callee(op, c, a, input, code), w)
  }

  /** CALLDATALOAD guards its offset with an addition whose overflow is not an EVM exception. */
  function ExecLoad(c: Ctx, w: World): Outcome {
    match Pop64(c.s)
    case Throw(e) => Threw(e, w)
    case Ok((offset, s1)) =>
      if offset + 32 >= TWO64 then Crashed(w) else OfStack(c, w, Push(s1, InputWord(c.input, offset)))
  }

  function Exec(env: Env, depth: nat, c: Ctx, w: World): Outcome
    requires c.pc < |c.code|
  {
    var op := c.code[c.pc];
    if IsPush(op) then ExecPush(c, w)
    else if op == JUMP || op == JUMPI then ExecJump(op, c, w)
    else if IsMemoryOp(op) then OfMemory(c, w, MemoryOp(op, env, c))
    else if IsWorldOp(op) then ExecWorld(op, c, w)
    else if op == RETURN then ExecReturn(c, w)
    else if op == STOP then Halted(w)
    else if op == SELFDESTRUCT then ExecSelfdestruct(c, w)
    else if op == CREATE then ExecCreate(env, depth, c, w)
    else if IsCall(op) then ExecCall(op, depth, c, w)
    else if op == CALLDATALOAD then ExecLoad(c, w)
    else OfStack(c, w, StackOp(op, env, c, w))
  }

  // ----- The machine: contexts, handlers, the run loop -----

  datatype Exit = ExitReturned | ExitHalted | ExitThrew

  datatype ExecResult = ExecResult(er: Exit, ex: ErrorType, output: seq<Byte>)

  /** `ctxts[|ctxts| - 1]` is the running context. */
  datatype Machine = Machine(ctxts: seq<Ctx>, w: World, result: ExecResult)

  /** The run loop goes on, has ended, or was left by an exception it does not catch, which leaves the
      world as it is. */
  datatype Status = Running(m: Machine) | Finished(m: Machine) | Escaped(w: World)

  /** Only the outermost context hands its result to the caller of `run`. */
  predicate Nested(ctxts: seq<Ctx>) {
    forall i :: 0 <= i < |ctxts| ==> (ctxts[i].handler.Top? <==> i == 0)
  }

  /** The handler belongs to the context that was on top of `m`. */
  predicate Popped(m: Machine, h: Handler) {
    Nested(m.ctxts) && (h.Top? <==> m.ctxts == [])
  }

  /** After a handler: the loop steps the context that is now on top, or ends. */
  function Resume(m: Machine): Status {
    if m.ctxts == [] then Finished(m)
    else
      var n := |m.ctxts| - 1;
      Running(m.(ctxts := m.ctxts[..n] + [StepPc(m.ctxts[n])]))
  }

  /** Writes a result word into the top context of `m`. */
  function PushResult(m: Machine, v: Word): Exc<Machine>
    requires m.ctxts != []
  {
    var n := |m.ctxts| - 1;
    var s :- Push(m.ctxts[n].s, v);
    Ok(m.(ctxts := m.ctxts[..n] + [m.ctxts[n].(s := s)]))
  }

  /** The exception handler of a popped context; `m` is what remains. An exception thrown by the
      handler itself leaves the catch block and `run`. */
  function OnException(m: Machine, h: Handler, e: ErrorType): Status
    requires Popped(m, h)
  {
    if h.Top? then Resume(m.(result := m.result.(er := ExitThrew, ex := e)))
    else
      match PushResult(m, 0)
      case Throw(_) => Escaped(m.w)
      case Ok(m1) => Resume(m1)
  }

  /** The return handler runs while the child is still on the stack; if it throws, the child's own
      exception handler is next. */
  function OnReturn(m: Machine, h: Handler, output: seq<Byte>): Status
    requires Popped(m, h)
  {
    match h
    case Top => Resume(m.(result := m.result.(er := ExitReturned, output := output)))
    case CallRet(offOut, sizeOut) =>
      var n := |m.ctxts| - 1;
      (match CopyMem(m.ctxts[n].mem, offOut, output, 0, sizeOut, 0)
       case Throw(e) => OnException(m, h, e)
       case Ok(mem) =>
         var m1 := m.(ctxts := m.ctxts[..n] + [m.ctxts[n].(mem := mem)]);
         match PushResult(m1, 1)
         case Throw(e) => OnException(m1, h, e)
         case Ok(m2) => Resume(m2))
    case CreateRet(addr) =>
      var m1 := m.(w := SetCode(m.w, addr, output));
      (match PushResult(m1, addr)
       case Throw(e) => OnException(m1, h, e)
       case Ok(m2) => Resume(m2))
  }

  /** What a halting child leaves its parent: success for a call, the null address for a creation. */
  function HaltWord(h: Handler): Word {
    if h.CallRet? then 1 else 0
  }

  /** `stop` pops the context first: if its halt handler throws, the parent's exception handler runs. */
  function OnHalt(m: Machine, h: Handler): Status
    requires Popped(m, h)
  {
    if h.Top? then Resume(m.(result := m.result.(er := ExitHalted)))
    else
      match PushResult(m, HaltWord(h))
      case Ok(m1) => Resume(m1)
      case Throw(e) =>
        var n := |m.ctxts| - 1;
        OnException(m.(ctxts := m.ctxts[..n]), m.ctxts[n].handler, e)
  }

  /** Running off the end of the code halts the context on top outside the try block and ends the run,
      also when that context is nested. */
  function FallOff(m: Machine): Status
    requires m.ctxts != [] && Nested(m.ctxts)
  {
    var n := |m.ctxts| - 1;
    var h, below := m.ctxts[n].handler, m.(ctxts := m.ctxts[..n]);
    if h.Top? then Finished(below.(result := m.result.(er := ExitHalted)))
    else
      match PushResult(below, HaltWord(h))
      case Throw(_) => Escaped(m.w)
      case Ok(m1) => Finished(m1)
  }

  /** What the loop makes of a dispatched opcode. */
  function Deliver(m: Machine, o: Outcome): Status
    requires m.ctxts != [] && Nested(m.ctxts)
    requires o.Next? ==> o.c.handler == m.ctxts[|m.ctxts| - 1].handler
    requires o.Entered? ==> o.c.handler == m.ctxts[|m.ctxts| - 1].handler && !o.child.handler.Top?
  {
    var n := |m.ctxts| - 1;
    var h, below := m.ctxts[n].handler, m.ctxts[..n];
    match o
    case Next(c, w) => Resume(m.(ctxts := below + [c], w := w))
    case Threw(e, w) => OnException(m.(ctxts := below, w := w), h, e)
    case Crashed(w) => Escaped(w)
    case Returned(output, w) => OnReturn(m.(ctxts := below, w := w), h, output)
    case Halted(w) => OnHalt(m.(ctxts := below, w := w), h)
    case Entered(c, child, w) => Resume(m.(ctxts := below + [c, child], w := w))
  }

  /** One turn of the run loop. */
  function Step(env: Env, m: Machine): (r: Status)
    requires m.ctxts != [] && Nested(m.ctxts)
    ensures r.Running? ==> r.m.ctxts != [] && Nested(r.m.ctxts)
  {
    var c := m.ctxts[|m.ctxts| - 1];
    if c.pc >= |c.code| then FallOff(m)
    else
      ExecKeepsHandler(env, |m.ctxts|, c, m.w);
      var o := Exec(env, |m.ctxts|, c, m.w);
      DeliverNested(m, o);
      Deliver(m, o)
  }

  lemma ExecKeepsHandler(env: Env, depth: nat, c: Ctx, w: World)
    requires c.pc < |c.code|
    ensures var o := Exec(env, depth, c, w);
            (o.Next? ==> o.c.handler == c.handler) &&
            (o.Entered? ==> o.c.handler == c.handler && !o.child.handler.Top?)
  {
    hide MemoryOp, StackOp, ReadOp, CopyOp, PayTo, CallOperands, CallWindows, CreateOperands, ValidDestinations;
  }

  lemma DeliverNested(m: Machine, o: Outcome)
    requires m.ctxts != [] && Nested(m.ctxts)
    requires o.Next? ==> o.c.handler == m.ctxts[|m.ctxts| - 1].handler
    requires o.Entered? ==> o.c.handler == m.ctxts[|m.ctxts| - 1].handler && !o.child.handler.Top?
    ensures var r := Deliver(m, o); r.Running? ==> r.m.ctxts != [] && Nested(r.m.ctxts)
  {
    hide OnException, OnReturn, OnHalt, Nested;
    var n := |m.ctxts| - 1;
    var h, below := m.ctxts[n].handler, m.ctxts[..n];
    NestedSplit(m.ctxts);
    match o
    case Next(c, w) =>
      NestedPush(below, c);
      ResumeNested(m.(ctxts := below + [c], w := w));
    case Threw(e, w) => OnExceptionNested(m.(ctxts := below, w := w), h, e);
    case Crashed(_) =>
    case Returned(output, w) => OnReturnNested(m.(ctxts := below, w := w), h, output);
    case Halted(w) => OnHaltNested(m.(ctxts := below, w := w), h);
    case Entered(c, child, w) =>
      NestedPush(below, c);
      NestedPush(below + [c], child);
      assert below + [c] + [child] == below + [c, child];
      ResumeNested(m.(ctxts := below + [c, child], w := w));
  }

  lemma NestedPush(below: seq<Ctx>, c: Ctx)
    requires Nested(below) && (c.handler.Top? <==> below == [])
    ensures Nested(below + [c])
  {
  }

  lemma NestedSplit(ctxts: seq<Ctx>)
    requires Nested(ctxts) && ctxts != []
    ensures Nested(ctxts[..|ctxts| - 1])
    ensures ctxts[|ctxts| - 1].handler.Top? <==> ctxts[..|ctxts| - 1] == []
  {
  }

  lemma ResumeNested(m: Machine)
    requires Nested(m.ctxts)
    ensures var r := Resume(m); r.Running? ==> r.m.ctxts != [] && Nested(r.m.ctxts)
  {
    if m.ctxts != [] {
      NestedSplit(m.ctxts);
      NestedPush(m.ctxts[..|m.ctxts| - 1], StepPc(m.ctxts[|m.ctxts| - 1]));
    }
  }

  /** Writing a result into the parent keeps the nesting. */
  lemma PushResultNested(m: Machine, v: Word)
    requires Nested(m.ctxts) && m.ctxts != []
    ensures PushResult(m, v).Ok? ==>
              var r := Resume(PushResult(m, v).value); r.Running? ==> r.m.ctxts != [] && Nested(r.m.ctxts)
  {
    hide Push, Nested, Resume;
    var r := PushResult(m, v);
    if r.Ok? {
      NestedSplit(m.ctxts);
      var n := |m.ctxts| - 1;
      NestedPush(m.ctxts[..n], r.value.ctxts[n]);
      ResumeNested(r.value);
    }
  }

  lemma OnExceptionNested(m: Machine, h: Handler, e: ErrorType)
    requires Popped(m, h)
    ensures var r := OnException(m, h, e); r.Running? ==> r.m.ctxts != [] && Nested(r.m.ctxts)
  {
    hide PushResult, Nested;
    if !h.Top? { PushResultNested(m, 0); }
  }

  lemma OnReturnNested(m: Machine, h: Handler, output: seq<Byte>)
    requires Popped(m, h)
    ensures var r := OnReturn(m, h, output); r.Running? ==> r.m.ctxts != [] && Nested(r.m.ctxts)
  {
    hide CopyMem, PushResult, OnException, Nested, Resume;
    match h
    case Top => ResumeEmpty(m.(result := m.result.(er := ExitReturned, output := output)));
    case CallRet(offOut, sizeOut) =>
      OnExceptionNested(m, h, OutOfBounds);
      NestedSplit(m.ctxts);
      var n := |m.ctxts| - 1;
      match CopyMem(m.ctxts[n].mem, offOut, output, 0, sizeOut, 0) {
        case Throw(e) => OnExceptionNested(m, h, e);
        case Ok(mem) =>
          var m1 := m.(ctxts := m.ctxts[..n] + [m.ctxts[n].(mem := mem)]);
          NestedPush(m.ctxts[..n], m.ctxts[n].(mem := mem));
          PushResultNested(m1, 1);
          match PushResult(m1, 1) {
            case Throw(e) => OnExceptionNested(m1, h, e);
            case Ok(_) =>
          }
      }
    case CreateRet(addr) =>
      var m1 := m.(w := SetCode(m.w, addr, output));
      PushResultNested(m1, addr);
      match PushResult(m1, addr) {
        case Throw(e) => OnExceptionNested(m1, h, e);
        case Ok(_) =>
      }
  }

  lemma ResumeEmpty(m: Machine)
    requires m.ctxts == []
    ensures Resume(m) == Finished(m)
  {
  }

  lemma OnHaltNested(m: Machine, h: Handler)
    requires Popped(m, h)
    ensures var r := OnHalt(m, h); r.Running? ==> r.m.ctxts != [] && Nested(r.m.ctxts)
  {
    hide OnException, PushResult, Nested;
    if !h.Top? {
      NestedSplit(m.ctxts);
      PushResultNested(m, HaltWord(h));
      match PushResult(m, HaltWord(h)) {
        case Ok(_) =>
        case Throw(e) =>
          var n := |m.ctxts| - 1;
          OnExceptionNested(m.(ctxts := m.ctxts[..n]), m.ctxts[n].handler, e);
      }
    }
  }

  /** `n` turns of the run loop, or fewer if it ends before. */
  function Run(env: Env, m: Machine, n: nat): (r: Status)
    requires m.ctxts != [] && Nested(m.ctxts)
    ensures r.Running? ==> r.m.ctxts != [] && Nested(r.m.ctxts)
    decreases n
  {
    if n == 0 then Running(m)
    else
      match Step(env, m)
      case Running(m1) => Run(env, m1, n - 1)
      case st => st
  }

  /** The machine `run` starts with. */
  function Start(caller: Word, callee: Word, input: seq<Byte>, callValue: Word, w: World): Machine {
    Machine([NewCtx(caller, callee, input, Lookup(w, callee).code, callValue, Top)], w,
            ExecResult(ExitReturned, OutOfBounds, []))
  }

  /** The clean-up after the loop removes the self-destructed accounts. */
  function CleanUp(w: World): World {
    w.(accounts := map a | a in w.accounts && a !in w.destructs :: w.accounts[a])
  }
}
