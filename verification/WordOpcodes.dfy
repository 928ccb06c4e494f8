/** What the opcodes on words mean, told from the operands on the stack and the outcome of the
    dispatched instruction, for every stack. */
module WordOpcodes {
  import opened Words
  import opened Signed
  import opened Bytecode
  import opened Alu
  import opened Evm

  predicate AtOpcode(c: Ctx, op: Byte) {
    c.pc < |c.code| && c.code[c.pc] == op
  }

  /** The top `n` words are replaced by `r`; nothing else changes. A stack that is full after the pops
      refuses the result. */
  predicate Pushes(o: Outcome, c: Ctx, w: World, n: nat, r: Word)
    requires n <= |c.s|
  {
    o == if |c.s| == MAX_STACK + n then Threw(OutOfBounds, w) else Next(c.(s := [r] + c.s[n..]), w)
  }

  lemma TwoOperands(env: Env, depth: nat, c: Ctx, w: World) returns (r: Word)
    requires c.pc < |c.code| && IsBinary(c.code[c.pc]) && |c.s| >= 2
    ensures Pushes(Exec(env, depth, c, w), c, w, 2, r) && r == Binary(c.code[c.pc], c.s[0], c.s[1])
  {
    hide Binary;
    r := Binary(c.code[c.pc], c.s[0], c.s[1]);
    assert c.s[1..][1..] == c.s[2..];
  }

  // ----- Arithmetic -----

  lemma Addition(env: Env, depth: nat, c: Ctx, w: World) returns (r: Word)
    requires AtOpcode(c, ADD) && |c.s| >= 2
    ensures Pushes(Exec(env, depth, c, w), c, w, 2, r)
    ensures r == if c.s[0] + c.s[1] < TWO256 then c.s[0] + c.s[1] else c.s[0] + c.s[1] - TWO256
  {
    hide Exec;
    r := TwoOperands(env, depth, c, w);
  }

  /** The difference is the one word that added to the subtrahend gives the minuend. */
  lemma Subtraction(env: Env, depth: nat, c: Ctx, w: World) returns (r: Word)
    requires AtOpcode(c, SUB) && |c.s| >= 2
    ensures Pushes(Exec(env, depth, c, w), c, w, 2, r)
    ensures (r + c.s[1]) % TWO256 == c.s[0]
  {
    hide Exec;
    r := TwoOperands(env, depth, c, w);
  }

  /** The product is what is left of the exact product after whole multiples of 2^256. */
  lemma Multiplication(env: Env, depth: nat, c: Ctx, w: World) returns (r: Word, q: nat)
    requires AtOpcode(c, MUL) && |c.s| >= 2
    ensures Pushes(Exec(env, depth, c, w), c, w, 2, r)
    ensures var v: nat := Product(c.s[0], c.s[1]); v == TWO256 * q + r
  {
    hide Exec;
    r := TwoOperands(env, depth, c, w);
    var rest;
    q, rest := DivMod(Product(c.s[0], c.s[1]), TWO256);
  }

  function Product(x: nat, y: nat): nat {
    x * y
  }

  /** DIV and MOD on the same operands are quotient and remainder; both give 0 for the divisor 0. */
  lemma DivisionWithRemainder(env: Env, depth: nat, d: Ctx, m: Ctx, w: World) returns (q: Word, r: Word)
    requires AtOpcode(d, DIV) && AtOpcode(m, MOD) && m.s == d.s && |d.s| >= 2
    ensures Pushes(Exec(env, depth, d, w), d, w, 2, q)
    ensures Pushes(Exec(env, depth, m, w), m, w, 2, r)
    ensures if d.s[1] == 0 then q == 0 && r == 0 else d.s[0] == q * d.s[1] + r && r < d.s[1]
  {
    hide Exec;
    q := TwoOperands(env, depth, d, w);
    r := TwoOperands(env, depth, m, w);
    if d.s[1] != 0 { var _, _ := DivMod(d.s[0], d.s[1]); }
  }

  /** SDIV and SMOD on the same operands truncate toward zero, except for the one pair that SDIV takes
      for an overflow. */
  lemma SignedDivision(env: Env, depth: nat, d: Ctx, m: Ctx, w: World) returns (q: Word, r: Word, Q: int)
    requires AtOpcode(d, SDIV) && AtOpcode(m, SMOD) && m.s == d.s && |d.s| >= 2
    ensures Pushes(Exec(env, depth, d, w), d, w, 2, q)
    ensures Pushes(Exec(env, depth, m, w), m, w, 2, r)
    ensures d.s[1] == 0 ==> q == 0 && r == 0
    ensures d.s[1] != 0 ==> Truncates(SignedWord(d.s[0]), SignedWord(d.s[1]), Q, SignedWord(r))
    ensures d.s[1] != 0 ==>
              q == if d.s[0] == TWO255 && d.s[1] == TWO64 - 1 then d.s[0] else Q % TWO256
  {
    hide Exec, Truncates, TruncDiv, TruncRem;
    q := TwoOperands(env, depth, d, w);
    r := TwoOperands(env, depth, m, w);
    Q := 0;
    if d.s[1] != 0 {
      Q := TruncDiv(SignedWord(d.s[0]), SignedWord(d.s[1]));
      SDivTruncates(d.s[0], d.s[1]);
      SModTruncates(d.s[0], d.s[1]);
    }
  }

  /** ADDMOD and MULMOD do not wrap before the remainder is taken. */
  lemma ModularArithmetic(env: Env, depth: nat, c: Ctx, w: World) returns (r: Word, q: nat)
    requires (AtOpcode(c, ADDMOD) || AtOpcode(c, MULMOD)) && |c.s| >= 3
    ensures Pushes(Exec(env, depth, c, w), c, w, 3, r)
    ensures c.s[2] == 0 ==> r == 0
    ensures c.s[2] != 0 ==> r < c.s[2] && Product(c.s[2], q) + r == Unwrapped(c, c.s[0], c.s[1])
  {
    hide Product;
    var v := Unwrapped(c, c.s[0], c.s[1]);
    assert c.s[1..][1..] == c.s[2..] && c.s[2..][1..] == c.s[3..];
    r, q := 0, 0;
    if c.s[2] != 0 {
      q, r := QuotientOf(v, c.s[2]);
    }
    OperandProduct(c.s[0], c.s[1]);
    assert r == if AtOpcode(c, ADDMOD) then AddMod(c.s[0], c.s[1], c.s[2]) else MulMod(c.s[0], c.s[1], c.s[2]);
    hide AddMod, MulMod;
  }

  /** The exact sum or product. */
  function Unwrapped(c: Ctx, x: nat, y: nat): nat {
    if AtOpcode(c, ADDMOD) then x + y else Product(x, y)
  }

  lemma OperandProduct(x: nat, y: nat)
    ensures Product(x, y) == x * y
  {
  }

  lemma QuotientOf(v: nat, m: nat) returns (q: nat, r: nat)
    requires m > 0
    ensures r == v % m && r < m && Product(m, q) + r == v
  {
    q, r := DivMod(v, m);
  }

  /** EXP takes a 64-bit exponent. */
  lemma Powers(env: Env, depth: nat, c: Ctx, w: World) returns (r: Word)
    requires AtOpcode(c, EXP) && |c.s| >= 2
    ensures c.s[1] >= TWO64 ==> Exec(env, depth, c, w) == Threw(OutOfBounds, w)
    ensures c.s[1] < TWO64 ==> Pushes(Exec(env, depth, c, w), c, w, 2, r)
    ensures c.s[1] < TWO64 ==> r == Exp(c.s[0], c.s[1]) % TWO256
  {
    hide Exp;
    assert c.s[1..][1..] == c.s[2..];
    r := WrapWord(Exp(c.s[0], c.s[1]));
  }

  /** SIGNEXTEND from byte `s[0]` gives the one word that reads as a signed number of so many bytes and
      agrees with the operand on them; from byte 32 on, the operand itself. */
  lemma SignExtension(env: Env, depth: nat, c: Ctx, w: World) returns (r: Word)
    requires AtOpcode(c, SIGNEXTEND) && |c.s| >= 2
    ensures Pushes(Exec(env, depth, c, w), c, w, 2, r)
    ensures c.s[0] >= 32 ==> r == c.s[1]
    ensures c.s[0] < 32 ==>
              var half := Exp(2, 8 * c.s[0] + 7);
              half > 0 && 0 - half <= SignedWord(r) < half && r % (2 * half) == c.s[1] % (2 * half)
  {
    hide Exec;
    r := TwoOperands(env, depth, c, w);
    if c.s[0] < 32 { SignExtendUnique(c.s[0], c.s[1], r); }
  }

  // ----- Comparison -----

  /** On the same operands exactly one of LT, GT and EQ gives 1, LT by the order of the words; GT is LT
      with the operands exchanged. */
  lemma Comparisons(env: Env, depth: nat, lt: Ctx, gt: Ctx, eq: Ctx, tl: Ctx, w: World)
    returns (l: Word, g: Word, e: Word)
    requires AtOpcode(lt, LT) && AtOpcode(gt, GT) && AtOpcode(eq, EQ) && AtOpcode(tl, LT)
    requires |lt.s| >= 2 && gt.s == lt.s && eq.s == lt.s && tl.s == [lt.s[1], lt.s[0]] + lt.s[2..]
    ensures Pushes(Exec(env, depth, lt, w), lt, w, 2, l)
    ensures Pushes(Exec(env, depth, gt, w), gt, w, 2, g) && Pushes(Exec(env, depth, tl, w), tl, w, 2, g)
    ensures Pushes(Exec(env, depth, eq, w), eq, w, 2, e)
    ensures l + g + e == 1 && (l == 1 <==> lt.s[0] < lt.s[1]) && (e == 1 <==> lt.s[0] == lt.s[1])
  {
    hide Exec;
    l := TwoOperands(env, depth, lt, w);
    g := TwoOperands(env, depth, gt, w);
    e := TwoOperands(env, depth, eq, w);
    var g' := TwoOperands(env, depth, tl, w);
    assert g' == g;
  }

  /** The same for the signed order, whose equality is that of the words. */
  lemma SignedComparisons(env: Env, depth: nat, lt: Ctx, gt: Ctx, tl: Ctx, w: World) returns (l: Word, g: Word)
    requires AtOpcode(lt, SLT) && AtOpcode(gt, SGT) && AtOpcode(tl, SLT)
    requires |lt.s| >= 2 && gt.s == lt.s && tl.s == [lt.s[1], lt.s[0]] + lt.s[2..]
    ensures Pushes(Exec(env, depth, lt, w), lt, w, 2, l)
    ensures Pushes(Exec(env, depth, gt, w), gt, w, 2, g) && Pushes(Exec(env, depth, tl, w), tl, w, 2, g)
    ensures l + g == (if lt.s[0] == lt.s[1] then 0 else 1) && (l == 1 <==> SignedWord(lt.s[0]) < SignedWord(lt.s[1]))
  {
    hide Exec;
    l := TwoOperands(env, depth, lt, w);
    g := TwoOperands(env, depth, gt, w);
    var g' := TwoOperands(env, depth, tl, w);
    assert g' == g;
  }

  /** ISZERO is EQ with 0. */
  lemma IsZero(env: Env, depth: nat, z: Ctx, eq: Ctx, w: World) returns (r: Word)
    requires AtOpcode(z, ISZERO) && AtOpcode(eq, EQ) && |z.s| >= 1 && eq.s == [0] + z.s
    ensures Pushes(Exec(env, depth, z, w), z, w, 1, r) && Pushes(Exec(env, depth, eq, w), eq, w, 2, r)
    ensures r == if z.s[0] == 0 then 1 else 0
  {
    r := TwoOperands(env, depth, eq, w);
  }

  // ----- Bits -----

  /** AND, OR and XOR work on every binary digit by itself. */
  lemma BitwiseAnd(env: Env, depth: nat, c: Ctx, w: World) returns (r: Word)
    requires AtOpcode(c, AND) && |c.s| >= 2
    ensures Pushes(Exec(env, depth, c, w), c, w, 2, r)
    ensures forall k: nat :: BitOf(r, k) == if BitOf(c.s[0], k) == 1 && BitOf(c.s[1], k) == 1 then 1 else 0
  {
    hide Exec, BitOf;
    r := TwoOperands(env, depth, c, w);
    forall k: nat
      ensures BitOf(r, k) == if BitOf(c.s[0], k) == 1 && BitOf(c.s[1], k) == 1 then 1 else 0
    {
      AndBits(c.s[0], c.s[1], k);
    }
  }

  lemma BitwiseOr(env: Env, depth: nat, c: Ctx, w: World) returns (r: Word)
    requires AtOpcode(c, OR) && |c.s| >= 2
    ensures Pushes(Exec(env, depth, c, w), c, w, 2, r)
    ensures forall k: nat :: BitOf(r, k) == if BitOf(c.s[0], k) == 1 || BitOf(c.s[1], k) == 1 then 1 else 0
  {
    hide Exec, BitOf;
    r := TwoOperands(env, depth, c, w);
    forall k: nat
      ensures BitOf(r, k) == if BitOf(c.s[0], k) == 1 || BitOf(c.s[1], k) == 1 then 1 else 0
    {
      OrBits(c.s[0], c.s[1], k);
    }
  }

  lemma BitwiseXor(env: Env, depth: nat, c: Ctx, w: World) returns (r: Word)
    requires AtOpcode(c, XOR) && |c.s| >= 2
    ensures Pushes(Exec(env, depth, c, w), c, w, 2, r)
    ensures forall k: nat :: BitOf(r, k) == if BitOf(c.s[0], k) != BitOf(c.s[1], k) then 1 else 0
  {
    hide Exec, BitOf;
    r := TwoOperands(env, depth, c, w);
    forall k: nat
      ensures BitOf(r, k) == if BitOf(c.s[0], k) != BitOf(c.s[1], k) then 1 else 0
    {
      XorBits(c.s[0], c.s[1], k);
    }
  }

  /** NOT is XOR with all ones: operand and result add up to 2^256 - 1. */
  lemma Complement(env: Env, depth: nat, n: Ctx, x: Ctx, w: World) returns (r: Word)
    requires AtOpcode(n, NOT) && AtOpcode(x, XOR) && |n.s| >= 1 && x.s == [TWO256 - 1] + n.s
    ensures Pushes(Exec(env, depth, n, w), n, w, 1, r) && Pushes(Exec(env, depth, x, w), x, w, 2, r)
    ensures n.s[0] + r == TWO256 - 1
  {
    hide Xor;
    r := TwoOperands(env, depth, x, w);
    AllOnes(n.s[0]);
  }

  lemma AllOnes(x: Word)
    ensures x + XorWord(TWO256 - 1, x) == TWO256 - 1
  {
    Power256(256);
    XorOnes(x, 256);
  }

  lemma {:induction false} XorOnes(x: nat, k: nat)
    requires x < Exp(2, k)
    ensures Exp(2, k) > 0 && x + Xor(Exp(2, k) - 1, x) == Exp(2, k) - 1
  {
    ExpPositive(2, k);
    if k > 0 {
      ExpPositive(2, k - 1);
      var p := Exp(2, k - 1);
      assert Exp(2, k) == 2 * p && (2 * p - 1) / 2 == p - 1 && (2 * p - 1) % 2 == 1;
      XorOnes(x / 2, k - 1);
    }
  }

  /** BYTE counts bytes from the most significant; past the last it leaves the second operand. */
  lemma ByteOfWord(env: Env, depth: nat, c: Ctx, w: World) returns (r: Word)
    requires AtOpcode(c, BYTE) && |c.s| >= 2
    ensures c.s[0] < 32 ==> Pushes(Exec(env, depth, c, w), c, w, 2, r)
    ensures c.s[0] < 32 ==> Exp(0x100, 31 - c.s[0]) > 0 && r == c.s[1] / Exp(0x100, 31 - c.s[0]) % 0x100
    ensures c.s[0] >= 32 ==> Pushes(Exec(env, depth, c, w), c, w, 1, 0)
  {
    hide Exp, ToBE;
    assert c.s[1..][1..] == c.s[2..];
    r := 0;
    if c.s[0] < 32 {
      r := ByteAt(c.s[0], c.s[1]);
      Digit(c.s[1], 32, c.s[0]);
    }
  }
}
