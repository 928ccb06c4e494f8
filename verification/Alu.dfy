/** The word operations of the interpreter: what each opcode means on 256-bit words, and the way
    src/processor.cpp computes the ones whose code is not that meaning already. */
module Alu {
  import opened Words
  import opened Signed
  import opened Bytecode

  function SignedWord(x: Word): int {
    Reading(x, TWO255)
  }

  function WrapWord(a: int): Word {
    a % TWO256
  }

  // ----- Signed operations -----

  /** The word an `int` converts to: its low 64 bits, without sign extension. */
  function OfInt(v: int): Word {
    v % TWO64
  }

  /** SDIV, whose overflow test compares with a converted literal. */
  function SDiv(x: Word, y: Word): Word {
    if y == 0 then 0
    else if x == TWO255 && y == OfInt(-1) then x
    else Encode(TruncDiv(SignedWord(x), SignedWord(y)), TWO255)
  }

  function SMod(x: Word, m: Word): Word {
    if m == 0 then 0 else Encode(TruncRem(SignedWord(x), SignedWord(m)), TWO255)
  }

  /** SIGNEXTEND: the low `8 * (x + 1)` bits of `y`, read as signed and written in full width. */
  function SignExtend(x: Word, y: Word): Word {
    if x >= 32 then y else
      ExpPositive(2, 8 * x + 7);
      Encode(Reading(y % (2 * Exp(2, 8 * x + 7)), Exp(2, 8 * x + 7)), TWO255)
  }

  function Flag(b: bool): Word {
    if b then 1 else 0
  }

  /** Byte `i` of a word, counted from the most significant. */
  function ByteAt(i: nat, v: Word): Word
    requires i < 32
  {
    ToBE(v, 32)[i]
  }

  /** SDIV is truncated two's-complement division, wrapping included, except for the smallest number
      divided by 2^64 - 1, to which the literal -1 converts: there the dividend comes back. */
  lemma SDivTruncates(x: Word, y: Word)
    requires y != 0
    ensures SDiv(x, y) == Encode(TruncDiv(SignedWord(x), SignedWord(y)), TWO255)
            <==> !(x == TWO255 && y == TWO64 - 1)
    ensures x == TWO255 && y == TWO64 - 1 ==> SDiv(x, y) == x
  {
    if x == TWO255 && y == TWO64 - 1 {
      var b := SignedWord(y);
      QuotientMagnitude(SignedWord(x), b);
      EncodeMagnitude(TWO255 / Abs(b), b > 0, TWO255);
    }
  }

  /** SMOD with DIV-style quotients: the remainder is signed like `x` and smaller than `m`. */
  lemma SModTruncates(x: Word, m: Word)
    requires m != 0
    ensures Truncates(SignedWord(x), SignedWord(m), TruncDiv(SignedWord(x), SignedWord(m)), SignedWord(SMod(x, m)))
  {
    var a, b := SignedWord(x), SignedWord(m);
    TruncDivision(a, b);
    EncodeInRange(TruncRem(a, b), TWO255);
  }

  /** SIGNEXTEND gives the one word that reads as a signed `8 * (x + 1)`-bit number
      and agrees with `y` on those bits. */
  lemma SignExtendUnique(x: Word, y: Word, z: Word)
    requires x < 32
    ensures Exp(2, 8 * x + 7) > 0
    ensures var half := Exp(2, 8 * x + 7);
            z == SignExtend(x, y) <==> 0 - half <= SignedWord(z) < half && z % (2 * half) == y % (2 * half)
  {
    var half, k := HalfDivides(x);
    var low := y % (2 * half);
    ReadingResidue(low, half);
    var a := Reading(low, half);
    SameResidue(z, half, k);
    EncodeInRange(a, TWO255);
    EncodeOfReading(z);
    if z == Encode(a, TWO255) {
      assert SignedWord(z) == a;
    }
    if 0 - half <= SignedWord(z) < half && z % (2 * half) == low {
      SameSmallResidue(SignedWord(z), a, 2 * half);
    }
  }

  lemma HalfDivides(x: Word) returns (half: nat, k: nat)
    requires x < 32
    ensures half == Exp(2, 8 * x + 7) && half > 0 && k > 0 && half * k == TWO255 && half <= TWO255
  {
    half, k := Exp(2, 8 * x + 7), Exp(2, 248 - 8 * x);
    ExpPositive(2, 8 * x + 7);
    ExpPositive(2, 248 - 8 * x);
    ExpAdd(2, 8 * x + 7, 248 - 8 * x);
    Power256((8 * x + 7) + (248 - 8 * x) + 1);
    FactorBelow(half, k);
  }

  lemma FactorBelow(a: nat, b: nat)
    requires b > 0
    ensures a <= a * b
  {
    assert a * b == a + a * (b - 1);
    assert a * (b - 1) >= 0 by { MulNat(a, b - 1); }
  }

  /** A signed reading is congruent to its word, in range, for any smaller width too. */
  lemma ReadingResidue(low: nat, half: nat)
    requires half > 0 && low < 2 * half
    ensures 0 - half <= Reading(low, half) < half
    ensures Reading(low, half) % (2 * half) == low
  {
    var a := Reading(low, half);
    if low < half { DivModUnique(low, 2 * half, 0, low); } else { ModWrap(a, 2 * half); }
  }

  lemma SameResidue(z: Word, half: nat, k: nat)
    requires half > 0 && half * k == TWO255
    ensures z % (2 * half) == SignedWord(z) % (2 * half)
  {
    if z >= TWO255 {
      assert z == (2 * half) * k + SignedWord(z) by { assert (2 * half) * k == 2 * (half * k); }
      ModShift(SignedWord(z), 2 * half, k);
    }
  }

  lemma SameSmallResidue(a: int, b: int, m: nat)
    requires m > 0 && a % m == b % m && 0 - m < a - b < m
    ensures a == b
  {
    var qa, qb := a / m, b / m;
    assert a - b == m * qa - m * qb;
    MulMinus(m, qa, qb);
    NoMultipleBetween(m, qa - qb, a - b);
  }

  lemma EncodeOfReading(z: Word)
    ensures Encode(SignedWord(z), TWO255) == z
  {
    EncodeInRange(SignedWord(z), TWO255);
  }

  // ----- The code of the signed operations -----

  method GetSign(v: Word) returns (sign: int)
    ensures sign == if SignedWord(v) < 0 then -1 else 1
  {
    return if v / TWO255 != 0 then -1 else 1;
  }

  method ComputeSDiv(x0: Word, y0: Word) returns (r: Word)
    ensures r == SDiv(x0, y0)
  {
    var x: Word, y: Word := x0, y0;
    var min := (TWO256 - 1) / 2 + 1;
    if y == 0 {
      return 0;
    } else if x == min && y == OfInt(-1) {
      return x;
    }
    var signX := GetSign(x);
    var signY := GetSign(y);
    ghost var a, b := SignedWord(x), SignedWord(y);
    if signX == -1 {
      x := Negate(x);
    }
    if signY == -1 {
      y := Negate(y);
    }
    ghost var q := Abs(a) / Abs(b);
    SDivParts(a, b, q);
    assert x / y == q;
    var z: Word := x / y;
    if signX != signY {
      z := Negate(z);
    }
    return z;
  }

  /** The quotient of the magnitudes, negated when the signs differ, encodes the truncated quotient. */
  lemma SDivParts(a: int, b: int, q: int)
    requires 0 - TWO255 <= a < TWO255 && b != 0 && q == Abs(a) / Abs(b)
    ensures 0 <= q <= TWO255
    ensures Encode(TruncDiv(a, b), TWO255) == if (a < 0) != (b < 0) && q != 0 then TWO256 - q else q
  {
    SignedQuotient(a, b, q);
    hide TruncDiv, Encode;
    EncodeMagnitude(q, (a < 0) != (b < 0), TWO255);
  }

  /** `0 - x` on words. */
  function Negate(x: Word): (r: Word)
    ensures r == if x == 0 then 0 else TWO256 - x
  {
    WrapWord(0 - x)
  }

  method ComputeSMod(x0: Word, m0: Word) returns (r: Word)
    ensures r == SMod(x0, m0)
  {
    var x: Word, m: Word := x0, m0;
    if m == 0 {
      return 0;
    }
    var signX := GetSign(x);
    var signM := GetSign(m);
    ghost var a, b := SignedWord(x), SignedWord(m);
    if signX == -1 {
      x := Negate(x);
    }
    if signM == -1 {
      m := Negate(m);
    }
    assert x == Abs(a) && m == Abs(b);
    EncodeMagnitude(Abs(a) % Abs(b), a < 0, TWO255);
    var z: Word := x % m;
    if signX == -1 {
      z := Negate(z);
    }
    return z;
  }

  /** SLT compares the words and, when the signs differ, the signs. */
  method ComputeSlt(x: Word, y: Word) returns (r: Word)
    ensures r == Flag(SignedWord(x) < SignedWord(y))
  {
    if x == y {
      return 0;
    }
    var signX := GetSign(x);
    var signY := GetSign(y);
    if signX != signY {
      return if signX == -1 then 1 else 0;
    }
    return Flag(x < y);
  }

  /** SIGNEXTEND with the code's masks: the low bits, or-ed with a shifted all-ones word. */
  method ComputeSignExtend(x: Word, y: Word) returns (r: Word)
    ensures r == SignExtend(x, y)
  {
    if x >= 32 {
      return y;
    }
    var idx := 8 * x + 7;
    ghost var half, k := HalfDivides(x);
    SignBit(y, half);
    var sign := Shr(y, idx) % 2;
    var mask := Exp(2, idx) - 1;
    var low := And(y, mask);
    AndLowMask(y, idx);
    ReadingResidue(y % (2 * half), half);
    ghost var a := Reading(y % (2 * half), half);
    EncodeInRange(a, TWO255);
    if sign == 1 {
      HighOnes(half, k);
      var high := WrapWord((TWO256 - 1) * Exp(2, idx));
      MultipleOf(2 * k - 1, half);
      JoinIsOr(high, low, idx);
      return Or(high, low);
    }
    JoinIsOr(0, low, idx);
    return Or(0, low);
  }

  lemma MultipleOf(a: nat, p: nat)
    requires p > 0
    ensures (a * p) % p == 0
  {
    ModShift(0, p, a);
  }

  /** `(~0) << idx` keeps the ones from bit `idx` on. */
  lemma HighOnes(half: nat, k: nat)
    requires half > 0 && k > 0 && half * k == TWO255
    ensures WrapWord((TWO256 - 1) * half) == TWO256 - half && TWO256 - half == (2 * k - 1) * half
  {
    assert (2 * k - 1) * half == 2 * (half * k) - half;
    FactorBelow(half, k);
    assert (TWO256 - 1) * half == TWO256 * (half - 1) + (TWO256 - half);
    ModShift(TWO256 - half, TWO256, half - 1);
  }

  lemma SignBit(y: nat, half: nat)
    requires half > 0
    ensures y % (2 * half) == y % half + (if (y / half) % 2 == 1 then half else 0)
  {
    var q, l := DivMod(y, half);
    var h, b := DivMod(q, 2);
    assert y == (2 * half) * h + (b * half + l) by { assert half * (2 * h + b) == (2 * half) * h + b * half; }
    assert b * half == if b == 1 then half else 0;
    DivModUnique(y, 2 * half, h, b * half + l);
  }
}
