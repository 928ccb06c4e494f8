/** Bytes and words: what a memory copy writes, and the different ways a word gets out of bytes. */
module MemoryPaths {
  import opened Words
  import opened Bytecode
  import opened Alu
  import opened Evm

  /** A copy succeeds exactly when it is empty or ends within the limit; then the window holds the
      source or padding, every other old byte is kept, and growth is zero. */
  lemma CopyMemWrites(dst: seq<Byte>, offDst: nat, src: seq<Byte>, offSrc: nat, size: nat, pad: Byte)
    ensures var r := CopyMem(dst, offDst, src, offSrc, size, pad);
            && (r.Ok? <==> size == 0 || offDst + size <= MAX_MEM)
            && (r.Ok? && size == 0 ==> r.value == dst)
            && (r.Ok? && size > 0 ==>
                  && |r.value| == (if |dst| >= offDst + size then |dst| else offDst + size)
                  && (forall i :: offDst <= i < offDst + size ==>
                        r.value[i] == if offSrc + i - offDst < |src| then src[offSrc + i - offDst] else pad)
                  && (forall i :: 0 <= i < |r.value| && !(offDst <= i < offDst + size) ==>
                        r.value[i] == if i < |dst| then dst[i] else 0))
  {
  }

  /** Loading from a range inside the memory leaves the memory as it is. */
  lemma LoadInside(mem: seq<Byte>, offset: nat)
    requires offset + 32 <= |mem| && offset + 32 <= MAX_MEM
    ensures Prepare(mem, offset, 32) == Ok(mem)
  {
  }

  /** CALLDATALOAD at `c` gives the word that CALLDATACOPY of the same 32 bytes at `d` and then MLOAD at
      `p` give, exactly for offsets to which 32 can be added; beyond, it leaves `run`, and the copy does not. */
  lemma LoadEqualsCopyThenLoad(env: Env, depth: nat, c: Ctx, d: Ctx, p: nat, w: World,
                               s: seq<Word>, offset: U64, dst: U64)
    requires |s| < MAX_STACK && dst + 32 <= MAX_MEM
    requires c.pc < |c.code| && c.code[c.pc] == CALLDATALOAD && c.s == [offset] + s
    requires d.pc < |d.code| && d.code[d.pc] == CALLDATACOPY && d.s == [dst, offset, 32] + s && d.input == c.input
    requires p < |d.code| && d.code[p] == MLOAD
    ensures var word := InputWord(c.input, offset);
            var direct, copied := Exec(env, depth, c, w), Exec(env, depth, d, w);
            && (direct == Next(c.(s := [word] + s), w) <==> offset < TWO64 - 32)
            && (direct == Crashed(w) <==> offset >= TWO64 - 32)
            && copied.Next? && copied.c == d.(s := s, mem := copied.c.mem) && copied.w == w
            && Exec(env, depth, copied.c.(pc := p, s := [dst] + s), w)
               == Next(copied.c.(pc := p, s := [word] + s), w)
  {
    hide CopyMem, CopyOp, MemoryOp, InputWord, StackOp;
    DirectLoad(env, depth, c, w, s, offset);
    var m := CopiedOutcome(env, d, s, offset, dst);
    var d1 := d.(s := s, mem := m);
    assert Exec(env, depth, d, w) == Next(d1, w);
    assert d1.(pc := p, s := [dst] + s) == d.(pc := p).(s := [dst] + s, mem := m);
  }

  lemma DirectLoad(env: Env, depth: nat, c: Ctx, w: World, s: seq<Word>, offset: U64)
    requires |s| < MAX_STACK && c.pc < |c.code| && c.code[c.pc] == CALLDATALOAD && c.s == [offset] + s
    ensures Exec(env, depth, c, w)
            == if offset < TWO64 - 32 then Next(c.(s := [InputWord(c.input, offset)] + s), w) else Crashed(w)
  {
    hide InputWord;
    assert c.s[1..] == s;
  }

  lemma CopiedOutcome(env: Env, d: Ctx, s: seq<Word>, offset: U64, dst: U64) returns (m: seq<Byte>)
    requires |s| < MAX_STACK && dst + 32 <= MAX_MEM && d.s == [dst, offset, 32] + s
    ensures MemoryOp(CALLDATACOPY, env, d) == Ok((s, m))
    ensures forall p: nat ::
              MemoryOp(MLOAD, env, d.(pc := p).(s := [dst] + s, mem := m)) == Ok(([InputWord(d.input, offset)] + s, m))
  {
    CopiedWindow(d.mem, d.input, dst, offset, 32);
    m := CopyMem(d.mem, dst, d.input, offset, 32, 0).value;
    CopyOperands(s, dst, offset, 32, d.mem, d.input);
    LoadInside(m, dst);
    hide CopyMem, CopyOp, WordOf, Window;
    forall p: nat
      ensures MemoryOp(MLOAD, env, d.(pc := p).(s := [dst] + s, mem := m)) == Ok(([InputWord(d.input, offset)] + s, m))
    {
      LoadOp(env, d.(pc := p), s, dst, m);
    }
  }

  lemma CopiedWindow(mem: seq<Byte>, src: seq<Byte>, dst: nat, offset: nat, size: nat)
    requires 0 < size && dst + size <= MAX_MEM
    ensures var r := CopyMem(mem, dst, src, offset, size, 0);
            r.Ok? && dst + size <= |r.value| && r.value[dst..dst + size] == Window(src, offset, size, 0)
  {
  }

  lemma CopyOperands(s: seq<Word>, a: U64, b: U64, n: U64, mem: seq<Byte>, src: seq<Byte>)
    ensures var r := CopyMem(mem, a, src, b, n, 0);
            CopyOp([a, b, n] + s, mem, src) == if r.Ok? then Ok((s, r.value)) else Throw(r.error)
  {
    hide CopyMem;
    var t := [a, b, n] + s;
    assert t[1..] == [b, n] + s && t[1..][1..] == [n] + s && t[1..][1..][1..] == s;
  }

  lemma LoadOp(env: Env, c: Ctx, s: seq<Word>, dst: U64, m: seq<Byte>)
    requires |s| < MAX_STACK && dst + 32 <= |m| && Prepare(m, dst, 32) == Ok(m)
    ensures MemoryOp(MLOAD, env, c.(s := [dst] + s, mem := m)) == Ok(([WordOf(m[dst..dst + 32])] + s, m))
  {
    hide Prepare, WordOf;
    assert ([dst] + s)[1..] == s;
  }

  /** MLOAD after MSTORE at the same offset returns the stored word; every other byte keeps its value. */
  lemma StoreThenLoad(env: Env, c: Ctx, s: seq<Word>, offset: U64, word: Word)
    requires |s| < MAX_STACK && offset + 32 <= MAX_MEM
    ensures var stored := MemoryOp(MSTORE, env, c.(s := [offset, word] + s));
            && stored.Ok? && stored.value.0 == s
            && MemoryOp(MLOAD, env, c.(s := [offset] + s, mem := stored.value.1)) == Ok(([word] + s, stored.value.1))
            && forall i :: 0 <= i < |stored.value.1| && !(offset <= i < offset + 32) ==>
                 stored.value.1[i] == if i < |c.mem| then c.mem[i] else 0
  {
    var t := [offset, word] + s;
    assert t[1..] == [word] + s && t[1..][1..] == s;
    var g := Grow(c.mem, offset + 32);
    var m := g[..offset] + ToBE(word, 32) + g[offset + 32..];
    assert m[offset..offset + 32] == ToBE(word, 32);
    Power256Bytes(32);
    FromToBE(word, 32);
    LoadInside(m, offset);
    LoadOp(env, c, s, offset, m);
  }
}
