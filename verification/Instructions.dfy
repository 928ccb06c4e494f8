/** The opcodes of src/processor.cpp that move the program counter or use the memory of the running
    context. */
module Instructions {
  import opened Words
  import opened Bytecode
  import opened Evm
  import opened State
  import opened Execution
  import opened Operations
  import opened Util

  // ----- Counter -----

  /** PUSH assembles its immediate byte by byte and sets the counter behind it. */
  method PushImmediate(ctxt: Context, ghost w: World) returns (r: Exc<()>)
    requires ctxt.pc < |ctxt.code| && IsPush(ctxt.code[ctxt.pc])
    modifies ctxt`pc, ctxt`pcChanged, ctxt.s
    ensures Did(SignalOf(r), ctxt.View(), w, ExecPush(old(ctxt.View()), w))
  {
    hide FromBE;
    var bytes := ctxt.code[ctxt.pc] - PUSH1 + 1;
    var end := (ctxt.pc + bytes) % TWO64;
    if end < ctxt.pc {
      return Throw(OutOfBounds);
    }
    if end >= |ctxt.code| {
      return Throw(OutOfBounds);
    }
    var imm := Immediate(ctxt.code, ctxt.pc + 1, bytes);
    var _ :- ctxt.s.Push(imm);
    ctxt.SetPc(ctxt.pc + 1 + bytes);
    return Ok(());
  }

  method Immediate(code: Vector, start: nat, bytes: nat) returns (imm: Word)
    requires bytes <= 32 && start + bytes <= |code|
    ensures imm == FromBE(code[start..start + bytes])
  {
    hide FromBE, Or, Shifted;
    var pc := start;
    imm := 0;
    NoBytes(code, start);
    for i := 0 to bytes
      invariant pc == start + i && imm == FromBE(code[start..pc])
    {
      ShiftIn(code[start..pc], code[pc]);
      assert code[start..pc + 1] == code[start..pc] + [code[pc]];
      imm := Or(Shifted(imm, 0x100), code[pc]);
      pc := pc + 1;
    }
  }

  lemma NoBytes(code: seq<Byte>, start: nat)
    requires start <= |code|
    ensures FromBE(code[start..start]) == 0
  {
  }

  method Jump(ctxt: Context, ghost w: World) returns (r: Exc<()>)
    requires ctxt.Valid()
    modifies ctxt`pc, ctxt`pcChanged, ctxt.s
    ensures Did(SignalOf(r), ctxt.View(), w, ExecJump(JUMP, old(ctxt.View()), w))
  {
    hide ValidDestinations;
    var newPc :- ctxt.s.Pop64();
    r := ctxt.JumpTo(newPc);
  }

  method JumpIf(ctxt: Context, ghost w: World) returns (r: Exc<()>)
    requires ctxt.Valid()
    modifies ctxt`pc, ctxt`pcChanged, ctxt.s
    ensures Did(SignalOf(r), ctxt.View(), w, ExecJump(JUMPI, old(ctxt.View()), w))
  {
    hide ValidDestinations;
    var newPc :- ctxt.s.Pop64();
    var cond :- ctxt.s.Pop();
    if cond != 0 {
      r := ctxt.JumpTo(newPc);
    } else {
      return Ok(());
    }
  }

  // ----- Memory -----

  method MLoad(env: Env, ctxt: Context) returns (r: Exc<()>)
    modifies ctxt`mem, ctxt.s
    ensures LeavesBoth(r, ctxt.s.st, ctxt.mem, MemoryOp(MLOAD, env, old(ctxt.View())))
  {
    hide FromBE, Grow;
    var offset :- ctxt.s.Pop64();
    var _ :- ctxt.PrepareMemAccess(offset, 32);
    var word := FromBigEndian(ctxt.mem[offset..offset + 32]);
    r := ctxt.s.Push(word.v);
  }

  method MStore(env: Env, ctxt: Context) returns (r: Exc<()>)
    modifies ctxt`mem, ctxt.s
    ensures LeavesBoth(r, ctxt.s.st, ctxt.mem, MemoryOp(MSTORE, env, old(ctxt.View())))
  {
    hide ToBE, Grow;
    var offset :- ctxt.s.Pop64();
    var word :- ctxt.s.Pop();
    var _ :- ctxt.PrepareMemAccess(offset, 32);
    var out := new Byte[32];
    ToBigEndian(word, out);
    ctxt.mem := ctxt.mem[..offset] + out[..] + ctxt.mem[offset + 32..];
    return Ok(());
  }

  method MStore8(env: Env, ctxt: Context) returns (r: Exc<()>)
    modifies ctxt`mem, ctxt.s
    ensures LeavesBoth(r, ctxt.s.st, ctxt.mem, MemoryOp(MSTORE8, env, old(ctxt.View())))
  {
    hide Grow;
    var offset :- ctxt.s.Pop64();
    var word :- ctxt.s.Pop();
    var b := word % 0x100;
    var _ :- ctxt.PrepareMemAccess(offset, 1);
    ctxt.mem := ctxt.mem[offset := b];
    return Ok(());
  }

  method CopyMemory(ctxt: Context, src: Vector) returns (r: Exc<()>)
    modifies ctxt`mem, ctxt.s
    ensures LeavesBoth(r, ctxt.s.st, ctxt.mem, CopyOp(old(ctxt.s.st), old(ctxt.mem), src))
  {
    hide CopyMem;
    var offDst :- ctxt.s.Pop64();
    var offSrc :- ctxt.s.Pop64();
    var size :- ctxt.s.Pop64();
    var dst :- CopyMemRaw(offDst, offSrc, size, ctxt.mem, src, 0);
    ctxt.mem := dst;
    return Ok(());
  }

  method Sha3(env: Env, ctxt: Context) returns (r: Exc<()>)
    modifies ctxt`mem, ctxt.s
    ensures LeavesBoth(r, ctxt.s.st, ctxt.mem, MemoryOp(SHA3, env, old(ctxt.View())))
  {
    hide Grow;
    var offset :- ctxt.s.Pop64();
    var size :- ctxt.s.Pop64();
    var _ :- ctxt.PrepareMemAccess(offset, size);
    var h := env.keccak(ctxt.mem[offset..offset + size]);
    r := ctxt.s.Push(h);
  }

  /** What the log handler of the transaction is given. */
  datatype LogEntry = LogEntry(address: Word, data: seq<Byte>, topics: seq<Word>)

  /** The topics are popped before the memory is read. */
  method Log(op: Byte, env: Env, ctxt: Context) returns (r: Exc<()>, entry: LogEntry)
    requires LOG0 <= op <= LOG4
    modifies ctxt`mem, ctxt.s
    ensures LeavesBoth(r, ctxt.s.st, ctxt.mem, MemoryOp(op, env, old(ctxt.View())))
    ensures r.Ok? ==>
              var s, n := old(ctxt.s.st), op - LOG0;
              && |s| >= 2 + n && s[0] + s[1] <= |ctxt.mem|
              && entry == LogEntry(ctxt.acc.address, ctxt.mem[s[0]..s[0] + s[1]], s[2..2 + n])
  {
    hide Grow;
    entry := LogEntry(ctxt.acc.address, [], []);
    var n := op - LOG0;
    var offset :- ctxt.s.Pop64();
    var size :- ctxt.s.Pop64();
    var topics :- PopTopics(ctxt.s, n);
    assert old(ctxt.s.st)[1..][1..][..n] == old(ctxt.s.st)[2..2 + n];
    var data :- ctxt.CopyFromMem(offset, size);
    entry := LogEntry(ctxt.acc.address, data, topics);
    return Ok(()), entry;
  }

  method PopTopics(s: Stack, n: nat) returns (r: Exc<seq<Word>>)
    modifies s
    ensures Leaves(if r.Ok? then Ok(()) else Throw(r.error), s.st, PopMany(old(s.st), n))
    ensures r.Ok? ==> |old(s.st)| >= n && r.value == old(s.st)[..n]
  {
    var topics: seq<Word> := [];
    var i := 0;
    while i < n
      invariant 0 <= i <= n && PopMany(s.st, n - i) == PopMany(old(s.st), n)
      invariant i <= |old(s.st)| && topics == old(s.st)[..i] && s.st == old(s.st)[i..]
    {
      var topic :- s.Pop();
      topics := topics + [topic];
      i := i + 1;
    }
    return Ok(topics);
  }

  method MemoryOperation(op: Byte, env: Env, ctxt: Context) returns (r: Exc<()>)
    requires IsMemoryOp(op)
    modifies ctxt`mem, ctxt.s
    ensures LeavesBoth(r, ctxt.s.st, ctxt.mem, MemoryOp(op, env, old(ctxt.View())))
  {
    hide CopyOp, Prepare, PopMany, ToBE, WordOf;
    if op == MLOAD {
      r := MLoad(env, ctxt);
    } else if op == MSTORE {
      r := MStore(env, ctxt);
    } else if op == MSTORE8 {
      r := MStore8(env, ctxt);
    } else if op == CALLDATACOPY {
      r := CopyMemory(ctxt, ctxt.input);
    } else if op == CODECOPY {
      r := CopyMemory(ctxt, ctxt.code);
    } else if op == SHA3 {
      r := Sha3(env, ctxt);
    } else {
      var entry;
      r, entry := Log(op, env, ctxt);
    }
  }

  /** The slice RETURN hands out. */
  method PopSlice(ctxt: Context) returns (r: Exc<Vector>)
    modifies ctxt`mem, ctxt.s
    ensures r == ReturnData(old(ctxt.View()))
  {
    hide Grow;
    var offset :- ctxt.s.Pop64();
    var size :- ctxt.s.Pop64();
    r := ctxt.CopyFromMem(offset, size);
  }

  // ----- Operands of CREATE and of the calls -----

  /** The endowment and the init code of CREATE. */
  method PopCreate(ctxt: Context) returns (r: Exc<(Word, Vector)>)
    modifies ctxt`mem, ctxt.s
    ensures r.Ok? ==> CreateOperands(old(ctxt.View())) == Ok((r.value.0, ctxt.mem, r.value.1, ctxt.s.st))
    ensures r.Throw? ==> CreateOperands(old(ctxt.View())) == Throw(r.error)
  {
    hide Grow;
    var contractValue :- ctxt.s.Pop();
    var offset :- ctxt.s.Pop64();
    var size :- ctxt.s.Pop64();
    var initCode :- ctxt.CopyFromMem(offset, size);
    return Ok((contractValue, initCode));
  }

  method PopCall(op: Byte, s: Stack) returns (r: Exc<CallArgs>)
    modifies s
    ensures r == CallOperands(op, old(s.st))
    ensures r.Ok? ==> r.value.s == s.st
  {
    var _ :- s.Pop();
    var addr :- PopAddr(s);
    var value: U64 := 0;
    if op != DELEGATECALL {
      value :- s.Pop64();
    }
    var offIn :- s.Pop64();
    var sizeIn :- s.Pop64();
    var offOut :- s.Pop64();
    var sizeOut :- s.Pop64();
    return Ok(CallArgs(addr, value, offIn, sizeIn, offOut, sizeOut, s.st));
  }

  /** Memory for the output window first, then for the input, which is copied. */
  method TakeInput(ctxt: Context, a: CallArgs) returns (r: Exc<Vector>)
    modifies ctxt`mem
    ensures r.Ok? ==> CallWindows(old(ctxt.mem), a) == Ok((ctxt.mem, r.value))
    ensures r.Throw? ==> CallWindows(old(ctxt.mem), a) == Throw(r.error)
  {
    hide Grow;
    var _ :- ctxt.PrepareMemAccess(a.offOut, a.sizeOut);
    var input :- ctxt.CopyFromMem(a.offIn, a.sizeIn);
    return Ok(input);
  }

  // ----- All opcodes that stay within the running context -----

  predicate IsLocal(op: Byte) {
    !IsWorldOp(op) && op != RETURN && op != STOP && op != SELFDESTRUCT && op != CREATE && !IsCall(op)
  }

  method LocalOperation(op: Byte, env: Env, ctxt: Context, ghost depth: nat, ghost w: World) returns (sig: Signal)
    requires ctxt.Valid() && ctxt.pc < |ctxt.code| && op == ctxt.code[ctxt.pc] && IsLocal(op)
    requires Lookup(w, ctxt.acc.address) == ctxt.acc.Value()
    modifies ctxt, ctxt.s
    ensures Did(sig, ctxt.View(), w, Exec(env, depth, old(ctxt.View()), w))
  {
    hide ExecPush, ExecJump, MemoryOp, StackOp, ExecLoad;
    var r: Exc<()>;
    if IsPush(op) {
      r := PushImmediate(ctxt, w);
    } else if op == JUMP {
      r := Jump(ctxt, w);
    } else if op == JUMPI {
      r := JumpIf(ctxt, w);
    } else if IsMemoryOp(op) {
      r := MemoryOperation(op, env, ctxt);
    } else if op == CALLDATALOAD {
      sig := CallDataLoad(ctxt, w);
      return;
    } else {
      r := StackOperation(op, env, ctxt, w);
    }
    return SignalOf(r);
  }
}
