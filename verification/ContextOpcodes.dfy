/** What the opcodes on the stack, the context, the memory and the storage mean, told from the operands
    and the outcome of the dispatched instruction, for every context. */
module ContextOpcodes {
  import opened Words
  import opened Bytecode
  import opened Alu
  import opened Evm
  import opened WordOpcodes

  // ----- Too few operands -----

  /** The operands an opcode takes, as Appendix H.2 of the Ethereum Yellow Paper counts them; BYTE may
      do with one. */
  function Operands(op: Byte): nat {
    if IsPush(op) || op in {ADDRESS, ORIGIN, CALLER, CALLVALUE, CALLDATASIZE, CODESIZE, GASPRICE, COINBASE,
                            TIMESTAMP, NUMBER, DIFFICULTY, GASLIMIT, PC, MSIZE, GAS, JUMPDEST, STOP} then 0
    else if op in {ISZERO, NOT, BYTE, BALANCE, CALLDATALOAD, EXTCODESIZE, BLOCKHASH, POP, MLOAD, SLOAD, JUMP,
                   SELFDESTRUCT} then 1
    else if op in {ADD, MUL, SUB, DIV, SDIV, MOD, SMOD, EXP, SIGNEXTEND, LT, GT, SLT, SGT, EQ, AND, OR, XOR, SHA3,
                   MSTORE, MSTORE8, SSTORE, JUMPI, RETURN} then 2
    else if op in {ADDMOD, MULMOD, CALLDATACOPY, CODECOPY, CREATE} then 3
    else if op == EXTCODECOPY then 4
    else if DUP1 <= op <= DUP16 then op - DUP1 + 1
    else if SWAP1 <= op <= SWAP16 then op - SWAP1 + 2
    else if LOG0 <= op <= LOG4 then op - LOG0 + 2
    else if op == CALL || op == CALLCODE then 7
    else if op == DELEGATECALL then 6
    else 0
  }

  /** The world after an account was asked for: a missing account is made, empty. */
  function Known(w: World, a: Word): World {
    w.(accounts := w.accounts[a := Lookup(w, a)])
  }

  lemma GetIsKnown(w: World, a: Word)
    ensures GetAccount(w, a) == Known(w, a) && Lookup(GetAccount(w, a), a) == Lookup(w, a)
  {
    assert a in w.accounts ==> w.accounts[a := Lookup(w, a)] == w.accounts;
  }

  /** An opcode without its operands throws and leaves the world as it is; EXTCODECOPY has asked for its
      account by then. */
  lemma TooFewOperands(env: Env, depth: nat, c: Ctx, w: World)
    requires c.pc < |c.code| && |c.s| < Operands(c.code[c.pc])
    ensures Exec(env, depth, c, w)
            == Threw(OutOfBounds, if AtOpcode(c, EXTCODECOPY) && c.s != [] then Known(w, c.s[0] % TWO160) else w)
  {
    hide ExecPush, ExecJump, MemoryOp, StackOp, ExecLoad, ExecWorld, ExecReturn, ExecSelfdestruct, ExecCreate, ExecCall,
         PopAddress, GetAccount, Known, Operands;
    var op := c.code[c.pc];
    KindsOf(op);
    if IsMemoryOp(op) { FewForMemory(op, env, c); }
    else if IsWorldOp(op) { FewForWorld(op, c, w); }
    else if op == JUMP || op == JUMPI || op in {RETURN, SELFDESTRUCT, CREATE, CALLDATALOAD} || IsCall(op) {
      FewForControl(op, env, depth, c, w);
    } else {
      FewForStack(op, env, c, w);
    }
  }

  lemma KindsOf(op: Byte)
    ensures IsPush(op) || op == STOP ==> Operands(op) == 0
  {
  }

  lemma FewForMemory(op: Byte, env: Env, c: Ctx)
    requires IsMemoryOp(op) && |c.s| < Operands(op)
    ensures MemoryOp(op, env, c) == Throw(OutOfBounds)
  {
    hide CopyOp, Prepare, PopMany, WordOf, ToBE;
    if op == CALLDATACOPY { FewForCopy(c.s, c.mem, c.input); }
    else if op == CODECOPY { FewForCopy(c.s, c.mem, c.code); }
    else if LOG0 <= op <= LOG4 { FewForLog(op, env, c); }
  }

  lemma FewForCopy(s: seq<Word>, mem: seq<Byte>, src: seq<Byte>)
    requires |s| < 3
    ensures CopyOp(s, mem, src) == Throw(OutOfBounds)
  {
  }

  lemma FewForLog(op: Byte, env: Env, c: Ctx)
    requires LOG0 <= op <= LOG4 && |c.s| < op - LOG0 + 2
    ensures MemoryOp(op, env, c) == Throw(OutOfBounds)
  {
    hide PopMany;
    if |c.s| >= 2 { FewTopics(c.s[1..][1..], op - LOG0); }
  }

  lemma FewForWorld(op: Byte, c: Ctx, w: World)
    requires IsWorldOp(op) && |c.s| < Operands(op)
    ensures ExecWorld(op, c, w)
            == Threw(OutOfBounds, if op == EXTCODECOPY && c.s != [] then Known(w, c.s[0] % TWO160) else w)
  {
    hide CopyMem, GetAccount;
    if c.s != [] { GetIsKnown(w, c.s[0] % TWO160); }
  }

  lemma FewForControl(op: Byte, env: Env, depth: nat, c: Ctx, w: World)
    requires op in {JUMP, JUMPI, RETURN, SELFDESTRUCT, CREATE, CALLDATALOAD} || IsCall(op)
    requires |c.s| < Operands(op)
    ensures op == JUMP || op == JUMPI ==> ExecJump(op, c, w) == Threw(OutOfBounds, w)
    ensures op == RETURN ==> ExecReturn(c, w) == Threw(OutOfBounds, w)
    ensures op == SELFDESTRUCT ==> ExecSelfdestruct(c, w) == Threw(OutOfBounds, w)
    ensures op == CREATE ==> ExecCreate(env, depth, c, w) == Threw(OutOfBounds, w)
    ensures op == CALLDATALOAD ==> ExecLoad(c, w) == Threw(OutOfBounds, w)
    ensures IsCall(op) ==> ExecCall(op, depth, c, w) == Threw(OutOfBounds, w)
  {
    hide ValidDestinations, Prepare, PayTo, GetAccount, CallWindows, InputWord;
  }

  lemma FewForStack(op: Byte, env: Env, c: Ctx, w: World)
    requires |c.s| < Operands(op) && !IsMemoryOp(op) && !IsWorldOp(op) && !IsCall(op)
    requires op !in {JUMP, JUMPI, RETURN, SELFDESTRUCT, CREATE, CALLDATALOAD}
    ensures StackOp(op, env, c, w) == Throw(OutOfBounds)
  {
    hide Binary, AddMod, MulMod, Power, ByteAt;
  }

  lemma {:induction false} FewTopics(s: seq<Word>, n: nat)
    ensures PopMany(s, n) == if |s| < n then Throw(OutOfBounds) else Ok(s[n..])
    decreases n
  {
    if n > 0 && s != [] { FewTopics(s[1..], n - 1); }
  }

  // ----- The stack -----

  /** PUSHk takes the number of the `k` bytes behind it and goes on behind them. */
  lemma ImmediateWord(env: Env, depth: nat, c: Ctx, w: World, k: nat) returns (v: Word)
    requires 1 <= k <= 32 && AtOpcode(c, PUSH1 + k - 1)
    ensures c.pc + k >= |c.code| || |c.s| == MAX_STACK ==> Exec(env, depth, c, w) == Threw(OutOfBounds, w)
    ensures c.pc + k < |c.code| && |c.s| != MAX_STACK ==>
              && v == FromBE(c.code[c.pc + 1..c.pc + 1 + k])
              && Exec(env, depth, c, w) == Next(c.(s := [v] + c.s, pc := c.pc + 1 + k, pcChanged := true), w)
  {
    hide FromBE;
    v := 0;
    if c.pc + k < |c.code| {
      ImmediateFits(c.code[c.pc + 1..c.pc + 1 + k]);
      v := FromBE(c.code[c.pc + 1..c.pc + 1 + k]);
    }
  }

  lemma ImmediateFits(bs: seq<Byte>)
    requires |bs| <= 32
    ensures FromBE(bs) < TWO256
  {
    FromBEBound(bs);
    ExpMonotone(0x100, |bs|, 32);
    Power256Bytes(32);
  }

  /** POP drops the top, DUPk copies word `k`, SWAPk exchanges the top with word `k + 1`. */
  lemma StackShuffle(env: Env, depth: nat, c: Ctx, w: World, k: nat) returns (s: seq<Word>)
    requires 1 <= k <= 16 && (AtOpcode(c, POP) || AtOpcode(c, DUP1 + k - 1) || AtOpcode(c, SWAP1 + k - 1))
    requires |c.s| >= Operands(c.code[c.pc])
    ensures Exec(env, depth, c, w) == Next(c.(s := s), w)
    ensures AtOpcode(c, POP) ==> s == c.s[1..]
    ensures AtOpcode(c, DUP1 + k - 1) ==> s == [c.s[k - 1]] + c.s
    ensures AtOpcode(c, SWAP1 + k - 1) ==>
              s == [c.s[k]] + c.s[1..k] + [c.s[0]] + c.s[k + 1..]
  {
    if c.code[c.pc] == POP {
      s := c.s[1..];
    } else if c.code[c.pc] <= DUP16 {
      s := [c.s[k - 1]] + c.s;
    } else {
      s := c.s[0 := c.s[k]][k := c.s[0]];
    }
  }

  // ----- The context and its surroundings -----

  /** What an opcode without operands reads. */
  lemma ContextWord(env: Env, depth: nat, c: Ctx, w: World) returns (r: Word)
    requires c.pc < |c.code|
    requires c.code[c.pc] in {ADDRESS, CALLER, CALLVALUE, CALLDATASIZE, CODESIZE, PC, MSIZE}
    requires |c.input| < TWO256 && |Lookup(w, c.acc).code| < TWO256 && c.pc < TWO256 && |c.mem| + 32 < TWO256
    ensures Pushes(Exec(env, depth, c, w), c, w, 0, r)
    ensures AtOpcode(c, ADDRESS) ==> r == c.acc
    ensures AtOpcode(c, CALLER) ==> r == c.caller
    ensures AtOpcode(c, CALLVALUE) ==> r == c.callValue
    ensures AtOpcode(c, CALLDATASIZE) ==> r == |c.input|
    ensures AtOpcode(c, CODESIZE) ==> r == |Lookup(w, c.acc).code|
    ensures AtOpcode(c, PC) ==> r == c.pc
    ensures AtOpcode(c, MSIZE) ==> r % 32 == 0 && |c.mem| <= r < |c.mem| + 32
  {
    assert c.s[0..] == c.s;
    r := match c.code[c.pc]
         case 0x30 => c.acc
         case 0x33 => c.caller
         case 0x34 => c.callValue
         case 0x36 => |c.input|
         case 0x38 => |Lookup(w, c.acc).code|
         case 0x58 => c.pc
         case _ => (|c.mem| + 31) / 32 * 32;
  }

  /** What is asked of the surroundings: block and transaction data, and the hashes of 256 blocks. */
  lemma SurroundingWord(env: Env, depth: nat, c: Ctx, w: World)
    requires c.pc < |c.code|
    ensures c.code[c.pc] in {ORIGIN, GASPRICE, COINBASE, TIMESTAMP, NUMBER, DIFFICULTY, GASLIMIT, GAS} ==>
              Pushes(Exec(env, depth, c, w), c, w, 0, env.query(c.code[c.pc]))
    ensures AtOpcode(c, BLOCKHASH) && c.s != [] ==>
              var i := c.s[0];
              if i >= TWO64 then Exec(env, depth, c, w) == Threw(OutOfBounds, w)
              else Pushes(Exec(env, depth, c, w), c, w, 1, if i < 256 then env.blockHash(i) else 0)
  {
    assert c.s[0..] == c.s;
  }

  /** BALANCE and EXTCODESIZE look at the account with the address in the low 160 bits; an account that
      is not there is made, empty, and stays. */
  lemma AccountWord(env: Env, depth: nat, c: Ctx, w: World)
    requires (AtOpcode(c, BALANCE) || AtOpcode(c, EXTCODESIZE)) && c.s != []
    requires |Lookup(w, c.s[0] % TWO160).code| < TWO256
    ensures var a := c.s[0] % TWO160;
            var r := if AtOpcode(c, BALANCE) then Lookup(w, a).balance else |Lookup(w, a).code|;
            Pushes(Exec(env, depth, c, w), c, Known(w, a), 1, r)
  {
    hide GetAccount;
    GetIsKnown(w, c.s[0] % TWO160);
  }

  // ----- Storage -----

  /** SSTORE and then SLOAD of the same key, by any contexts of one account, give the stored word back,
      zero included; every other key, every other account and the rest of this one are as before. */
  lemma StoredWord(env: Env, depth: nat, c: Ctx, d: Ctx, w: World, k: Word) returns (w1: World)
    requires AtOpcode(c, SSTORE) && |c.s| >= 2
    requires AtOpcode(d, SLOAD) && d.s != [] && d.s[0] == k && d.acc == c.acc
    ensures Exec(env, depth, c, w) == Next(c.(s := c.s[2..]), w1)
    ensures k == c.s[0] ==> Pushes(Exec(env, depth, d, w1), d, w1, 1, c.s[1])
    ensures k != c.s[0] ==>
              exists v: Word ::
                Pushes(Exec(env, depth, d, w), d, w, 1, v) && Pushes(Exec(env, depth, d, w1), d, w1, 1, v)
    ensures w1.destructs == w.destructs && w1.accounts.Keys == w.accounts.Keys + {c.acc}
    ensures Lookup(w1, c.acc) == Lookup(w, c.acc).(storage := Lookup(w1, c.acc).storage)
    ensures forall a :: a in w.accounts && a != c.acc ==> w1.accounts[a] == w.accounts[a]
  {
    assert c.s[1..][1..] == c.s[2..];
    w1 := Exec(env, depth, c, w).w;
    var st := Lookup(w, c.acc).storage;
    var v := if k in st then st[k] else 0;
    assert Pushes(Exec(env, depth, d, w), d, w, 1, v);
    if k != c.s[0] { assert Pushes(Exec(env, depth, d, w1), d, w1, 1, v); }
  }

  /** A key that was never stored reads as zero. */
  lemma UnsetWord(env: Env, depth: nat, d: Ctx, w: World)
    requires AtOpcode(d, SLOAD) && d.s != [] && d.s[0] !in Lookup(w, d.acc).storage
    ensures Pushes(Exec(env, depth, d, w), d, w, 1, 0)
  {
  }

  // ----- Memory -----

  /** `g` is `mem`, grown by zeros so that it covers the range. */
  predicate Covers(mem: seq<Byte>, g: seq<Byte>, end: nat) {
    && |g| == (if |mem| >= end then |mem| else end)
    && forall i :: 0 <= i < |g| ==> g[i] == if i < |mem| then mem[i] else 0
  }

  /** A range that does not pass the limit of memories. */
  predicate Accessible(offset: Word, size: nat) {
    offset < TWO64 && offset + size <= MAX_MEM
  }

  /** MLOAD reads 32 bytes, the most significant first. */
  lemma LoadedWord(env: Env, depth: nat, c: Ctx, w: World) returns (g: seq<Byte>, r: Word)
    requires AtOpcode(c, MLOAD) && c.s != [] && |c.s| <= MAX_STACK
    ensures !Accessible(c.s[0], 32) ==> Exec(env, depth, c, w) == Threw(OutOfBounds, w)
    ensures Accessible(c.s[0], 32) ==>
              && Exec(env, depth, c, w) == Next(c.(s := [r] + c.s[1..], mem := g), w)
              && Covers(c.mem, g, c.s[0] + 32)
              && ToBE(r, 32) == g[c.s[0]..c.s[0] + 32]
  {
    hide FromBE, ToBE;
    g, r := c.mem, 0;
    if Accessible(c.s[0], 32) {
      g := Grow(c.mem, c.s[0] + 32);
      var bs := g[c.s[0]..c.s[0] + 32];
      r := WordOf(bs);
      ToFrom(bs);
    }
  }

  lemma {:induction false} ToFrom(bs: seq<Byte>)
    ensures ToBE(FromBE(bs), |bs|) == bs
  {
    if bs != [] {
      ToFrom(bs[..|bs| - 1]);
      DivModUnique(FromBE(bs), 0x100, FromBE(bs[..|bs| - 1]), bs[|bs| - 1]);
    }
  }

  /** MSTORE writes the 32 bytes of the word, MSTORE8 its lowest; every other byte stays. */
  lemma StoredBytes(env: Env, depth: nat, c: Ctx, w: World) returns (g: seq<Byte>)
    requires (AtOpcode(c, MSTORE) || AtOpcode(c, MSTORE8)) && |c.s| >= 2
    ensures var bs := if AtOpcode(c, MSTORE) then ToBE(c.s[1], 32) else [c.s[1] % 0x100];
            if !Accessible(c.s[0], |bs|) then Exec(env, depth, c, w) == Threw(OutOfBounds, w)
            else Exec(env, depth, c, w) == Next(c.(s := c.s[2..], mem := g), w) && Copied(c.mem, g, c.s[0], bs, 0, |bs|)
  {
    hide ToBE;
    assert c.s[1..][1..] == c.s[2..];
    var bs := if AtOpcode(c, MSTORE) then ToBE(c.s[1], 32) else [c.s[1] % 0x100];
    var o := c.s[0];
    g := c.mem;
    if Accessible(o, |bs|) {
      g := Grow(c.mem, o + |bs|);
      g := g[..o] + bs + g[o + |bs|..];
      WrittenBytes(c.mem, o, bs);
    }
    hide Copied, Grow;
  }

  lemma WrittenBytes(mem: seq<Byte>, o: nat, bs: seq<Byte>)
    requires bs != []
    ensures var g := Grow(mem, o + |bs|);
            && Copied(mem, g[..o] + bs + g[o + |bs|..], o, bs, 0, |bs|)
            && (|bs| == 1 ==> g[o := bs[0]] == g[..o] + bs + g[o + |bs|..])
  {
  }

  /** CALLDATACOPY copies the input, CODECOPY the running code, EXTCODECOPY the code of the account with
      the address in the low 160 bits; past its end the source reads as zero. */
  lemma CopiedBytes(env: Env, depth: nat, c: Ctx, w: World, src: seq<Byte>) returns (w1: World, g: seq<Byte>)
    requires c.pc < |c.code| && c.code[c.pc] in {CALLDATACOPY, CODECOPY, EXTCODECOPY} && |c.s| >= Operands(c.code[c.pc])
    requires AtOpcode(c, CALLDATACOPY) ==> src == c.input
    requires AtOpcode(c, CODECOPY) ==> src == c.code
    requires AtOpcode(c, EXTCODECOPY) ==> src == Lookup(w, c.s[0] % TWO160).code
    ensures w1 == if AtOpcode(c, EXTCODECOPY) then Known(w, c.s[0] % TWO160) else w
    ensures var k := if AtOpcode(c, EXTCODECOPY) then 1 else 0;
            var dst, off, n := c.s[k], c.s[k + 1], c.s[k + 2];
            if dst >= TWO64 || off >= TWO64 || n >= TWO64 || (n > 0 && dst + n > MAX_MEM)
              then Exec(env, depth, c, w) == Threw(OutOfBounds, w1)
            else
              Exec(env, depth, c, w) == Next(c.(s := c.s[k + 3..], mem := g), w1) && Copied(c.mem, g, dst, src, off, n)
  {
    var k := if AtOpcode(c, EXTCODECOPY) then 1 else 0;
    w1 := if AtOpcode(c, EXTCODECOPY) then Known(w, c.s[0] % TWO160) else w;
    CopyOperandsAt(c.s, k, c.mem, src);
    SourceOf(env, depth, c, w, src);
    hide Exec, CopyMem, CopyOp, Copied;
    CopyWrites(c.mem, c.s[k], src, c.s[k + 1], c.s[k + 2]);
    var r := CopyMem(c.mem, c.s[k], src, c.s[k + 1], c.s[k + 2], 0);
    g := if r.Ok? then r.value else c.mem;
  }

  /** `g` is `mem` with `n` bytes of `src` written at `dst`, zeros past the end of the source, and grown by
      zeros to make room; an empty range changes nothing. */
  predicate Copied(mem: seq<Byte>, g: seq<Byte>, dst: nat, src: seq<Byte>, off: nat, n: nat) {
    if n == 0 then g == mem
    else
      && |g| == (if |mem| >= dst + n then |mem| else dst + n)
      && forall i :: 0 <= i < |g| ==>
           g[i] == if dst <= i < dst + n then (if off + (i - dst) < |src| then src[off + (i - dst)] else 0)
                   else if i < |mem| then mem[i] else 0
  }

  lemma CopyOperandsAt(s: seq<Word>, k: nat, mem: seq<Byte>, src: seq<Byte>)
    requires |s| >= k + 3
    ensures CopyOp(s[k..], mem, src)
            == if s[k] >= TWO64 || s[k + 1] >= TWO64 || s[k + 2] >= TWO64 then Throw(OutOfBounds)
               else
                 var r := CopyMem(mem, s[k], src, s[k + 1], s[k + 2], 0);
                 if r.Ok? then Ok((s[k + 3..], r.value)) else Throw(r.error)
  {
    hide CopyMem;
    var t := s[k..];
    assert t[1..] == s[k + 1..] && t[1..][1..] == s[k + 2..] && t[1..][1..][1..] == s[k + 3..];
  }

  lemma SourceOf(env: Env, depth: nat, c: Ctx, w: World, src: seq<Byte>)
    requires c.pc < |c.code| && c.code[c.pc] in {CALLDATACOPY, CODECOPY, EXTCODECOPY} && |c.s| >= Operands(c.code[c.pc])
    requires AtOpcode(c, CALLDATACOPY) ==> src == c.input
    requires AtOpcode(c, CODECOPY) ==> src == c.code
    requires AtOpcode(c, EXTCODECOPY) ==> src == Lookup(w, c.s[0] % TWO160).code
    ensures Exec(env, depth, c, w)
            == if AtOpcode(c, EXTCODECOPY) then OfMemory(c, Known(w, c.s[0] % TWO160), CopyOp(c.s[1..], c.mem, src))
               else OfMemory(c, w, CopyOp(c.s[0..], c.mem, src))
  {
    hide CopyOp, GetAccount;
    assert c.s[0..] == c.s;
    if AtOpcode(c, EXTCODECOPY) { GetIsKnown(w, c.s[0] % TWO160); }
  }

  lemma CopyWrites(mem: seq<Byte>, dst: nat, src: seq<Byte>, off: nat, n: nat)
    ensures var r := CopyMem(mem, dst, src, off, n, 0);
            if n > 0 && dst + n > MAX_MEM then r == Throw(OutOfBounds)
            else r.Ok? && Copied(mem, r.value, dst, src, off, n)
  {
  }

  /** CALLDATALOAD reads 32 bytes of the input, zeros past its end. */
  lemma InputBytes(env: Env, depth: nat, c: Ctx, w: World) returns (r: Word)
    requires AtOpcode(c, CALLDATALOAD) && c.s != [] && c.s[0] < TWO64 - 32
    ensures Pushes(Exec(env, depth, c, w), c, w, 1, r)
    ensures forall i :: 0 <= i < 32 ==>
              ToBE(r, 32)[i] == if c.s[0] + i < |c.input| then c.input[c.s[0] + i] else 0
  {
    hide FromBE, ToBE;
    var bs := Window(c.input, c.s[0], 32, 0);
    r := InputWord(c.input, c.s[0]);
    ToFrom(bs);
  }

  /** SHA3 hashes the range of the grown memory. */
  lemma HashedBytes(env: Env, depth: nat, c: Ctx, w: World) returns (g: seq<Byte>)
    requires AtOpcode(c, SHA3) && 2 <= |c.s| <= MAX_STACK
    ensures var o, n := c.s[0], c.s[1];
            if n >= TWO64 || !Accessible(o, n) then Exec(env, depth, c, w) == Threw(OutOfBounds, w)
            else
              && Covers(c.mem, g, o + n)
              && Exec(env, depth, c, w) == Next(c.(s := [env.keccak(g[o..o + n])] + c.s[2..], mem := g), w)
  {
    assert c.s[1..][1..] == c.s[2..];
    var o, n := c.s[0], c.s[1];
    g := c.mem;
    if n < TWO64 && Accessible(o, n) { g := Grow(c.mem, o + n); }
  }

  /** LOGk drops its operands and covers the range; its entry is stated at the method that makes it. */
  lemma LoggedBytes(env: Env, depth: nat, c: Ctx, w: World, k: nat) returns (g: seq<Byte>)
    requires k <= 4 && AtOpcode(c, LOG0 + k) && |c.s| >= 2 + k
    ensures var o, n := c.s[0], c.s[1];
            if n >= TWO64 || !Accessible(o, n) then Exec(env, depth, c, w) == Threw(OutOfBounds, w)
            else Covers(c.mem, g, o + n) && Exec(env, depth, c, w) == Next(c.(s := c.s[2 + k..], mem := g), w)
  {
    hide PopMany;
    var o, n := c.s[0], c.s[1];
    assert c.s[1..][1..] == c.s[2..] && c.s[2..][k..] == c.s[2 + k..];
    FewTopics(c.s[2..], k);
    g := c.mem;
    if n < TWO64 && Accessible(o, n) { g := Grow(c.mem, o + n); }
  }

  // ----- The ends of a program -----

  /** RETURN gives out the range of the grown memory, STOP gives out nothing; neither touches the world. */
  lemma ReturnedBytes(env: Env, depth: nat, c: Ctx, w: World) returns (output: seq<Byte>)
    requires AtOpcode(c, RETURN) && |c.s| >= 2
    ensures var o, n := c.s[0], c.s[1];
            if n >= TWO64 || !Accessible(o, n) then Exec(env, depth, c, w) == Threw(OutOfBounds, w)
            else
              Exec(env, depth, c, w) == Returned(output, w) && |output| == n && MemoryBytes(c.mem, o, output)
  {
    var o, n := c.s[0], c.s[1];
    output := [];
    if n < TWO64 && Accessible(o, n) { output := Grow(c.mem, o + n)[o..o + n]; }
  }

  /** The bytes of a memory from `o` on, zeros past its end. */
  predicate MemoryBytes(mem: seq<Byte>, o: nat, bs: seq<Byte>) {
    forall i :: 0 <= i < |bs| ==> bs[i] == if o + i < |mem| then mem[o + i] else 0
  }

  lemma Stopped(env: Env, depth: nat, c: Ctx, w: World)
    requires AtOpcode(c, STOP)
    ensures Exec(env, depth, c, w) == Halted(w)
  {
  }

  /** JUMPDEST does nothing; an opcode without a meaning throws. */
  lemma NoOperation(env: Env, depth: nat, c: Ctx, w: World)
    requires c.pc < |c.code|
    ensures AtOpcode(c, JUMPDEST) ==> Exec(env, depth, c, w) == Next(c, w)
    ensures !Assigned(c.code[c.pc]) ==> Exec(env, depth, c, w) == Threw(IllegalInstruction, w)
  {
  }

  /** The opcodes that have a meaning: the ranges of Appendix H.2 of the Ethereum Yellow Paper. */
  predicate Assigned(op: Byte) {
    || op <= 0x0b || 0x10 <= op <= 0x1a || op == 0x20 || 0x30 <= op <= 0x3c || 0x40 <= op <= 0x45
    || 0x50 <= op <= 0x5b || 0x60 <= op <= 0xa4 || 0xf0 <= op <= 0xf4 || op == 0xff
  }
}
