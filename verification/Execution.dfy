/** A context as an object, with its memory, and the copying that all memory opcodes share. */
module Execution {
  import opened Words
  import opened Bytecode
  import opened Evm
  import opened State

  class Context {
    var pc: nat
    var pcChanged: bool
    var mem: Vector
    const s: Stack
    const acc: SimpleAccount
    const caller: Word
    const input: Vector
    const callValue: Word
    const code: Vector
    const jumpDests: set<nat>
    const handler: Handler
    /** The context the handlers write into. */
    const parent: Context?

    ghost predicate Valid() {
      jumpDests == ValidDestinations(code, 0)
    }

    ghost function View(): Ctx
      reads this, s
    {
      Ctx(pc, pcChanged, s.st, mem, acc.address, caller, input, callValue, code, handler)
    }

    constructor (caller: Word, acc: SimpleAccount, input: Vector, callValue: Word, code: Vector,
                 handler: Handler, parent: Context?)
      ensures Valid() && fresh(s) && this.acc == acc && this.parent == parent
      ensures View() == NewCtx(caller, acc.address, input, code, callValue, handler)
    {
      pc, pcChanged, mem := 0, true, [];
      var stack := new Stack();
      s := stack;
      this.caller, this.acc, this.input, this.callValue, this.code := caller, acc, input, callValue, code;
      this.handler, this.parent := handler, parent;
      var dests := ComputeJumpDests(code);
      jumpDests := dests;
    }

    /** Increments the counter if it was not set before. */
    method Step()
      modifies `pc, `pcChanged
      ensures View() == StepPc(old(View()))
    {
      if pcChanged {
        pcChanged := false;
      } else {
        pc := pc + 1;
      }
    }

    method SetPc(newPc: nat)
      modifies `pc, `pcChanged
      ensures View() == old(View()).(pc := newPc, pcChanged := true)
    {
      pc, pcChanged := newPc, true;
    }

    /** Grows the memory to cover the range, or throws and leaves it alone. */
    method PrepareMemAccess(offset: U64, size: U64) returns (r: Exc<()>)
      modifies `mem
      ensures r.Ok? ==> Prepare(old(mem), offset, size) == Ok(mem)
      ensures r.Throw? ==> Prepare(old(mem), offset, size) == Throw(r.error) && mem == old(mem)
    {
      var end := (offset + size) % TWO64;
      if end < offset {
        return Throw(OutOfBounds);
      }
      if end > MAX_MEM {
        return Throw(OutOfBounds);
      }
      if end > |mem| {
        mem := mem + Zeros(end - |mem|);
      }
      return Ok(());
    }

    method CopyFromMem(offset: U64, size: U64) returns (r: Exc<Vector>)
      modifies `mem
      ensures r.Ok? ==> Prepare(old(mem), offset, size) == Ok(mem) && r.value == mem[offset..offset + size]
      ensures r.Throw? ==> Prepare(old(mem), offset, size) == Throw(r.error) && mem == old(mem)
    {
      var _ :- PrepareMemAccess(offset, size);
      return Ok(mem[offset..offset + size]);
    }

    method JumpTo(newPc: U64) returns (r: Exc<()>)
      requires Valid()
      modifies `pc, `pcChanged
      ensures newPc in ValidDestinations(code, 0) ==> r == Ok(()) && pc == newPc && pcChanged
      ensures newPc !in ValidDestinations(code, 0) ==> r == Throw(IllegalInstruction) && unchanged(this)
    {
      if newPc !in jumpDests {
        return Throw(IllegalInstruction);
      }
      SetPc(newPc);
      return Ok(());
    }
  }

  /** Copies as `copy_mem_raw` does, with its 64-bit sums. */
  method CopyMemRaw(offDst: U64, offSrc: U64, size: U64, dst0: Vector, src: Vector, pad: Byte) returns (r: Exc<Vector>)
    ensures r == CopyMem(dst0, offDst, src, offSrc, size, pad)
  {
    var dst: Vector := dst0;
    if size == 0 {
      return Ok(dst);
    }
    var lastDst := (offDst + size) % TWO64;
    if lastDst < offDst {
      return Throw(OutOfBounds);
    }
    if lastDst > MAX_MEM {
      return Throw(OutOfBounds);
    }
    if lastDst > |dst| {
      dst := dst + Zeros(lastDst - |dst|);
    }
    dst := FillWindow(offDst, offSrc, size, dst, src, pad);
    return Ok(dst);
  }

  /** The copy itself. When the end of the source range wraps, the range starts past any vector, so
      every byte is padding. */
  method FillWindow(offDst: nat, offSrc: U64, size: nat, dst0: Vector, src: Vector, pad: Byte) returns (dst: Vector)
    requires 0 < size && offDst + size <= MAX_MEM && offDst + size <= |dst0|
    ensures dst == Written(dst0, offDst, Window(src, offSrc, size, pad))
  {
    hide Window, Written;
    dst := dst0;
    var lastDst := offDst + size;
    var lastSrc := (offSrc + size) % TWO64;
    var endSrc := if lastSrc < |src| then lastSrc else |src|;
    SourceRange(offSrc, size, |src|);
    var part: seq<Byte>, remaining: nat := [], size;
    if endSrc > offSrc {
      part := src[offSrc..endSrc];
      remaining := lastSrc - endSrc;
      dst := Written(dst, offDst, part);
    } else {
      WrittenNothing(dst, offDst);
    }
    var padding := seq(remaining, _ => pad);
    WindowParts(src, offSrc, size, pad, part, padding);
    WrittenTwice(dst0, offDst, part, padding);
    dst := Written(dst, lastDst - remaining, padding);
  }

  /** `std::copy` and `std::fill` into a vector. */
  function Written(g: Vector, at: nat, bs: seq<Byte>): (r: Vector)
    requires at + |bs| <= |g|
    ensures |r| == |g|
  {
    g[..at] + bs + g[at + |bs|..]
  }

  lemma WrittenNothing(g: Vector, at: nat)
    requires at <= |g|
    ensures Written(g, at, []) == g
  {
  }

  lemma WrittenTwice(g: Vector, at: nat, a: seq<Byte>, b: seq<Byte>)
    requires at + |a| + |b| <= |g|
    ensures Written(Written(g, at, a), at + |a|, b) == Written(g, at, a + b)
  {
  }

  lemma SourceRange(offSrc: U64, size: nat, n: nat)
    requires 0 < size <= MAX_MEM && n <= MAX_VECTOR
    ensures var lastSrc := (offSrc + size) % TWO64;
            var endSrc := if lastSrc < n then lastSrc else n;
            && (endSrc > offSrc <==> offSrc < n)
            && (offSrc < n ==> lastSrc == offSrc + size)
  {
  }

  /** A window is the part of the source in it, then padding. */
  lemma WindowParts(src: seq<Byte>, offSrc: nat, size: nat, pad: Byte, part: seq<Byte>, padding: seq<Byte>)
    requires |part| + |padding| == size && forall i :: 0 <= i < |padding| ==> padding[i] == pad
    requires if offSrc >= |src| || size == 0 then part == []
             else part == src[offSrc..if offSrc + size < |src| then offSrc + size else |src|]
    ensures Window(src, offSrc, size, pad) == part + padding
  {
  }
}
