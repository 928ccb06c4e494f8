/** The disassembler's reading of a program, and its agreement with the interpreter's. */
module Disassembler {
  import opened Words
  import opened Bytecode
  import opened Alu
  import opened Evm

  datatype Instr = Instr(op: Byte, pc: nat, rawImm: seq<Byte>)

  /** The comment of an instruction: the name of a jump destination, or where a jump goes. */
  datatype Comment = NoComment | Location(pc: nat) | IllegalTarget | BranchesTo(pc: nat)

  /** The immediate size in the opcode table; an opcode that is not in the table has none. */
  function TableImmediate(op: Byte): nat {
    if PUSH1 <= op <= PUSH32 then op - (PUSH1 - 1) else 0
  }

  /** `Instr::get_immediate`, an error for instructions without one. */
  function GetImmediate(i: Instr): (r: Exc<nat>)
  {
    if i.rawImm == [] then Throw(IllegalInstruction) else Ok(FromBE(i.rawImm))
  }

  /** The instruction that starts at `p`. */
  function InstrAt(prog: seq<Byte>, p: nat): Instr
    requires p < |prog| && NextInstruction(prog, p) <= |prog|
  {
    Instr(prog[p], p, prog[p + 1..NextInstruction(prog, p)])
  }

  /** Some instruction from `i` on has its immediate cut off by the end of the program. */
  predicate Truncated(prog: seq<Byte>, i: nat)
    decreases |prog| - i
  {
    i < |prog| && (NextInstruction(prog, i) > |prog| || Truncated(prog, NextInstruction(prog, i)))
  }

  /** The instructions from `i` on, in program order. */
  function Listing(prog: seq<Byte>, i: nat): seq<Instr>
    requires !Truncated(prog, i)
    decreases |prog| - i
  {
    if i >= |prog| then [] else [InstrAt(prog, i)] + Listing(prog, NextInstruction(prog, i))
  }

  /** Opcode and immediate bytes of a listing, one after the other. */
  function Bytes(l: seq<Instr>): seq<Byte> {
    if l == [] then [] else [l[0].op] + l[0].rawImm + Bytes(l[1..])
  }

  /** The instructions by position. */
  ghost predicate IndexedBy(prog: seq<Byte>, instrs: map<nat, Instr>, from: nat, upTo: nat) {
    && (forall p: nat :: p in instrs <==> p < upTo && StartsAt(prog, from, p))
    && (forall p: nat :: p in instrs ==>
          p < |prog| && NextInstruction(prog, p) <= |prog| && instrs[p] == InstrAt(prog, p))
  }

  /** `reverseLookup` has, for every opcode, the positions of its instructions. */
  ghost predicate Collects(reverseLookup: map<Byte, set<nat>>, instrs: map<nat, Instr>) {
    forall op: Byte, p: nat ::
      (op in reverseLookup && p in reverseLookup[op]) <==> (p in instrs && instrs[p].op == op)
  }

  /** Advances over the program, cutting off opcode and immediate each time; a cut-off immediate is
      an error. `reverseLookup` collects the positions of every opcode. */
  method Dis(prog: seq<Byte>)
    returns (ok: bool, instrs: map<nat, Instr>, reverseLookup: map<Byte, set<nat>>, comments: map<nat, Comment>)
    ensures ok <==> !Truncated(prog, 0)
    ensures ok ==> IndexedBy(prog, instrs, 0, |prog|)
    ensures ok ==> Collects(reverseLookup, instrs)
    ensures ok ==> comments.Keys == instrs.Keys
    ensures ok ==> forall p :: p in comments ==> p < |prog| && Commented(prog, p, comments[p])
  {
    instrs, reverseLookup, comments := map[], map[], map[];
    var it := 0;
    NothingYet(prog);
    hide IndexedBy, Collects;
    while it < |prog|
      invariant 0 <= it <= |prog|
      invariant it < |prog| ==> StartsAt(prog, 0, it)
      invariant Truncated(prog, 0) <==> Truncated(prog, it)
      invariant IndexedBy(prog, instrs, 0, it)
      invariant Collects(reverseLookup, instrs)
    {
      var pc := it;
      var opcode := prog[it];
      it := it + 1;
      var immediateBytes := TableImmediate(opcode);
      var bytesLeft := |prog| - it;
      if bytesLeft < immediateBytes {
        return false, instrs, reverseLookup, comments;
      }
      var instr := Instr(opcode, pc, prog[it..it + immediateBytes]);
      it := it + immediateBytes;
      NextStarts(prog, 0, pc);
      NotYetIndexed(prog, instrs, pc);
      Extends(prog, instrs, pc);
      CollectsMore(reverseLookup, instrs, instr);
      reverseLookup := reverseLookup[opcode := (if opcode in reverseLookup then reverseLookup[opcode] else {}) + {pc}];
      instrs := instrs[pc := instr];
    }
    ok := true;
    comments := NameDestinations(instrs, reverseLookup);
    comments := ResolveJumps(prog, instrs, reverseLookup, comments);
  }

  // ----- Comments -----

  /** The instruction at `q` is the one before `p`. */
  predicate Precedes(prog: seq<Byte>, q: nat, p: nat) {
    q < |prog| && IsInstruction(prog, q) && NextInstruction(prog, q) == p
  }

  predicate IsJump(op: Byte) {
    op == JUMP || op == JUMPI
  }

  /** What the listing says at `p`: a jump behind a PUSH is resolved by the low 64 bits of the immediate. */
  ghost predicate Commented(prog: seq<Byte>, p: nat, c: Comment)
    requires p < |prog|
  {
    && (prog[p] == JUMPDEST ==> c == Location(p))
    && (prog[p] != JUMPDEST && !IsJump(prog[p]) ==> c == NoComment)
    && (IsJump(prog[p]) ==>
          && (forall q: nat :: Precedes(prog, q, p) && IsPush(prog[q]) ==>
                c == TargetComment(prog, FromBE(prog[q + 1..p])))
          && ((forall q: nat :: Precedes(prog, q, p) ==> !IsPush(prog[q])) ==> c == NoComment))
  }

  /** The comment of a jump to a number, as the bytes of the program tell it. */
  function TargetComment(prog: seq<Byte>, v: nat): Comment {
    if v % TWO64 in ValidDestinations(prog, 0) then BranchesTo(v % TWO64) else IllegalTarget
  }

  function LookUp(reverseLookup: map<Byte, set<nat>>, op: Byte): set<nat> {
    if op in reverseLookup then reverseLookup[op] else {}
  }

  /** Names every JUMPDEST by its position; the other comments are still empty. */
  method NameDestinations(instrs: map<nat, Instr>, reverseLookup: map<Byte, set<nat>>)
    returns (comments: map<nat, Comment>)
    requires Collects(reverseLookup, instrs)
    ensures comments.Keys == instrs.Keys
    ensures forall p :: p in instrs ==> comments[p] == if instrs[p].op == JUMPDEST then Location(p) else NoComment
  {
    comments := map p | p in instrs :: NoComment;
    var todo := LookUp(reverseLookup, JUMPDEST);
    while todo != {}
      invariant forall p :: p in todo ==> p in instrs && instrs[p].op == JUMPDEST
      invariant comments.Keys == instrs.Keys
      invariant forall p :: p in instrs ==>
                  comments[p] == if instrs[p].op == JUMPDEST && p !in todo then Location(p) else NoComment
      decreases |todo|
    {
      var dest :| dest in todo;
      comments := comments[dest := Location(dest)];
      todo := todo - {dest};
    }
  }

  /** Resolves every jump whose predecessor has an immediate. */
  method ResolveJumps(prog: seq<Byte>, instrs: map<nat, Instr>, reverseLookup: map<Byte, set<nat>>,
                      named: map<nat, Comment>) returns (comments: map<nat, Comment>)
    requires IndexedBy(prog, instrs, 0, |prog|) && Collects(reverseLookup, instrs) && named.Keys == instrs.Keys
    requires forall p :: p in instrs ==> named[p] == if instrs[p].op == JUMPDEST then Location(p) else NoComment
    ensures comments.Keys == instrs.Keys
    ensures forall p :: p in comments ==> p < |prog| && Commented(prog, p, comments[p])
  {
    comments := named;
    var jumps := LookUp(reverseLookup, JUMP) + LookUp(reverseLookup, JUMPI);
    JumpsCollected(instrs, reverseLookup, jumps);
    Unresolved(prog, instrs, named);
    hide IndexedBy, Commented, Collects, LookUp;
    var todo := jumps;
    while todo != {}
      invariant todo <= jumps && comments.Keys == instrs.Keys
      invariant forall p :: p in todo ==> comments[p] == NoComment
      invariant forall p :: p in instrs && p !in todo ==> p < |prog| && Commented(prog, p, comments[p])
      decreases |todo|
    {
      var jump :| jump in todo;
      var c := ResolveJump(prog, instrs, comments, jump);
      comments := comments[jump := c];
      todo := todo - {jump};
    }
  }

  lemma JumpsCollected(instrs: map<nat, Instr>, reverseLookup: map<Byte, set<nat>>, jumps: set<nat>)
    requires Collects(reverseLookup, instrs) && jumps == LookUp(reverseLookup, JUMP) + LookUp(reverseLookup, JUMPI)
    ensures forall p :: p in jumps <==> p in instrs && IsJump(instrs[p].op)
  {
  }

  /** The heuristics for one jump. */
  method ResolveJump(prog: seq<Byte>, instrs: map<nat, Instr>, comments: map<nat, Comment>, jump: nat)
    returns (c: Comment)
    requires IndexedBy(prog, instrs, 0, |prog|) && jump in instrs && IsJump(instrs[jump].op)
    requires comments.Keys == instrs.Keys && comments[jump] == NoComment
    ensures jump < |prog| && Commented(prog, jump, c)
  {
    hide IndexedBy, Commented;
    var found, prev := Previous(instrs, jump);
    PreviousPrecedes(prog, instrs, jump, found, prev);
    if !found || TableImmediate(instrs[prev].op) == 0 {
      LeftAlone(prog, jump, found, prev);
      return comments[jump];
    }
    var imm := GetImmediate(instrs[prev]).value;
    var target := imm % TWO64;
    Resolved(prog, instrs, jump, prev);
    if target !in instrs || instrs[target].op != JUMPDEST {
      return IllegalTarget;
    }
    return BranchesTo(target);
  }

  /** The greatest key below `p`, as an ordered map finds it. */
  method Previous(instrs: map<nat, Instr>, p: nat) returns (found: bool, q: nat)
    ensures found ==> q in instrs && q < p && forall k :: q < k < p ==> k !in instrs
    ensures !found ==> forall k :: 0 <= k < p ==> k !in instrs
  {
    q := p;
    while q > 0
      invariant q <= p && forall k :: q <= k < p ==> k !in instrs
    {
      q := q - 1;
      if q in instrs {
        return true, q;
      }
    }
    return false, q;
  }

  /** An instruction has one predecessor. */
  lemma OnePredecessor(prog: seq<Byte>, q: nat, q': nat, p: nat)
    requires Precedes(prog, q, p) && Precedes(prog, q', p)
    ensures q == q'
  {
    NoStartInImmediate(prog, 0, q, q');
    NoStartInImmediate(prog, 0, q', q);
  }

  /** The neighbour in the index is the preceding instruction. */
  lemma PreviousPrecedes(prog: seq<Byte>, instrs: map<nat, Instr>, p: nat, found: bool, q: nat)
    requires IndexedBy(prog, instrs, 0, |prog|) && p in instrs
    requires found ==> q in instrs && q < p && forall k :: q < k < p ==> k !in instrs
    requires !found ==> forall k :: 0 <= k < p ==> k !in instrs
    ensures p < |prog| && instrs[p].op == prog[p]
    ensures found ==> Precedes(prog, q, p) && instrs[q] == InstrAt(prog, q)
    ensures !found ==> forall q': nat :: !Precedes(prog, q', p)
  {
    assert instrs[p] == InstrAt(prog, p) && instrs[p].op == prog[p];
    hide InstrAt;
    if found {
      NextStarts(prog, 0, q);
      NoStartInImmediate(prog, 0, q, p);
    } else {
      assert 0 in instrs;
    }
  }

  /** A jump that comes first, or behind an instruction without an immediate, gets no comment. */
  lemma LeftAlone(prog: seq<Byte>, p: nat, found: bool, q: nat)
    requires p < |prog| && IsJump(prog[p])
    requires if found then Precedes(prog, q, p) && !IsPush(prog[q]) else forall q': nat :: !Precedes(prog, q', p)
    ensures Commented(prog, p, NoComment)
  {
    forall q': nat | Precedes(prog, q', p)
      ensures !IsPush(prog[q'])
    {
      if found { OnePredecessor(prog, q, q', p); }
    }
  }

  /** The comment that the index gives for a jump behind `prev`. */
  lemma Resolved(prog: seq<Byte>, instrs: map<nat, Instr>, p: nat, prev: nat)
    requires IndexedBy(prog, instrs, 0, |prog|) && p in instrs && Precedes(prog, prev, p) && prev in instrs
    requires p < |prog| && IsJump(prog[p]) && instrs[prev] == InstrAt(prog, prev) && IsPush(prog[prev])
    ensures GetImmediate(instrs[prev]) == Ok(FromBE(prog[prev + 1..p]))
    ensures Commented(prog, p, TargetComment(prog, FromBE(prog[prev + 1..p])))
    ensures var t := FromBE(prog[prev + 1..p]) % TWO64;
            t in instrs && instrs[t].op == JUMPDEST <==> t in ValidDestinations(prog, 0)
  {
    hide FromBE;
    forall q: nat | Precedes(prog, q, p)
      ensures q == prev
    {
      OnePredecessor(prog, q, prev, p);
    }
    JumpdestsAgree(prog, instrs);
  }

  /** What is not a jump has its comment from the start. */
  lemma Unresolved(prog: seq<Byte>, instrs: map<nat, Instr>, named: map<nat, Comment>)
    requires IndexedBy(prog, instrs, 0, |prog|) && named.Keys == instrs.Keys
    requires forall p :: p in instrs ==> named[p] == if instrs[p].op == JUMPDEST then Location(p) else NoComment
    ensures forall p :: p in instrs && !IsJump(instrs[p].op) ==> p < |prog| && Commented(prog, p, named[p])
  {
  }

  lemma NothingYet(prog: seq<Byte>)
    ensures IndexedBy(prog, map[], 0, 0) && Collects(map[], map[])
  {
  }

  lemma NotYetIndexed(prog: seq<Byte>, instrs: map<nat, Instr>, p: nat)
    requires IndexedBy(prog, instrs, 0, p)
    ensures p !in instrs
  {
  }

  lemma CollectsMore(reverseLookup: map<Byte, set<nat>>, instrs: map<nat, Instr>, i: Instr)
    requires Collects(reverseLookup, instrs) && i.pc !in instrs
    ensures Collects(reverseLookup[i.op := (if i.op in reverseLookup then reverseLookup[i.op] else {}) + {i.pc}],
                     instrs[i.pc := i])
  {
  }

  /** One more instruction extends the index to the next instruction. */
  lemma Extends(prog: seq<Byte>, instrs: map<nat, Instr>, p: nat)
    requires p < |prog| && StartsAt(prog, 0, p) && NextInstruction(prog, p) <= |prog| && IndexedBy(prog, instrs, 0, p)
    ensures IndexedBy(prog, instrs[p := InstrAt(prog, p)], 0, NextInstruction(prog, p))
  {
    var next, instrs' := NextInstruction(prog, p), instrs[p := InstrAt(prog, p)];
    hide InstrAt;
    forall q: nat
      ensures q in instrs' <==> q < next && StartsAt(prog, 0, q)
    {
      if p < q < next && StartsAt(prog, 0, q) { NoStartInImmediate(prog, 0, p, q); }
    }
  }

  // ----- Agreement with the interpreter -----

  /** Disassembly succeeds exactly when no PUSH reached from the start is one the interpreter rejects. */
  lemma {:induction false} TruncatedIsRejected(prog: seq<Byte>, i: nat)
    ensures Truncated(prog, i) <==>
            exists p: nat :: StartsAt(prog, i, p) && p < |prog| && NextInstruction(prog, p) > |prog|
    decreases |prog| - i
  {
    if i < |prog| {
      var next := NextInstruction(prog, i);
      TruncatedIsRejected(prog, next);
      if next > |prog| {
        assert StartsAt(prog, i, i);
      } else if exists p: nat :: StartsAt(prog, next, p) && p < |prog| && NextInstruction(prog, p) > |prog| {
        var p: nat :| StartsAt(prog, next, p) && p < |prog| && NextInstruction(prog, p) > |prog|;
        assert StartsAt(prog, i, p);
      }
    }
  }

  /** The interpreter throws out-of-bounds at a PUSH exactly when the disassembler would at that place,
      or when its operand stack is full; otherwise it pushes the immediate the disassembler lists. */
  lemma PushAgrees(c: Ctx, w: World)
    requires c.pc < |c.code| && IsPush(c.code[c.pc])
    ensures var o := ExecPush(c, w);
            if NextInstruction(c.code, c.pc) > |c.code| || |c.s| == MAX_STACK then o == Threw(OutOfBounds, w)
            else
              && GetImmediate(InstrAt(c.code, c.pc)).Ok? && o.Next?
              && o.c.s == [GetImmediate(InstrAt(c.code, c.pc)).value] + c.s
              && o.c.pc == NextInstruction(c.code, c.pc)
  {
    var next := NextInstruction(c.code, c.pc);
    if next <= |c.code| {
      var imm := c.code[c.pc + 1..next];
      ImmediateFits(imm);
    }
  }

  lemma ImmediateFits(imm: seq<Byte>)
    requires |imm| <= 32
    ensures FromBE(imm) < TWO256 && WrapWord(FromBE(imm)) == FromBE(imm)
  {
    FromBEBound(imm);
    ExpMonotone(0x100, |imm|, 32);
    Power256Bytes(32);
  }

  /** Listing a program and concatenating opcodes and immediates gives the program back. */
  lemma {:induction false} ListingIsProgram(prog: seq<Byte>, i: nat)
    requires i <= |prog| && !Truncated(prog, i)
    ensures Bytes(Listing(prog, i)) == prog[i..]
    decreases |prog| - i
  {
    if i < |prog| {
      var next := NextInstruction(prog, i);
      var l := Listing(prog, i);
      ListingIsProgram(prog, next);
      assert l[1..] == Listing(prog, next);
      assert prog[i..] == [prog[i]] + prog[i + 1..next] + prog[next..];
    }
  }

  /** The listing has exactly the instructions of the index, in increasing position. */
  lemma {:induction false} ListingIsIndex(prog: seq<Byte>, i: nat, k: nat)
    requires !Truncated(prog, i) && k < |Listing(prog, i)|
    ensures var l := Listing(prog, i);
            && StartsAt(prog, i, l[k].pc) && l[k].pc < |prog| && NextInstruction(prog, l[k].pc) <= |prog|
            && l[k] == InstrAt(prog, l[k].pc)
            && (k + 1 < |l| ==> l[k + 1].pc == NextInstruction(prog, l[k].pc))
            && (k + 1 == |l| ==> NextInstruction(prog, l[k].pc) == |prog|)
    decreases |prog| - i
  {
    var next := NextInstruction(prog, i);
    assert Listing(prog, i)[1..] == Listing(prog, next);
    if k > 0 {
      ListingIsIndex(prog, next, k - 1);
    } else if next < |prog| {
      assert Listing(prog, next)[0] == InstrAt(prog, next);
    }
  }

  /** The JUMPDEST positions of a disassembly are the interpreter's jump destinations. */
  lemma JumpdestsAgree(prog: seq<Byte>, instrs: map<nat, Instr>)
    requires IndexedBy(prog, instrs, 0, |prog|)
    ensures (set p | p in instrs && instrs[p].op == JUMPDEST) == ValidDestinations(prog, 0)
  {
    forall p: nat
      ensures (p in instrs && instrs[p].op == JUMPDEST) <==> p in ValidDestinations(prog, 0)
    {
      DestinationsAreJumpdests(prog, 0, p);
    }
  }
}
