/** Truncated division of signed integers and two's-complement readings of machine words. */
module Signed {
  import opened Words

  function Abs(a: int): nat {
    if a < 0 then -a else a
  }

  /** Division rounding toward zero. */
  function TruncDiv(a: int, b: int): int
    requires b != 0
  {
    var q := Abs(a) / Abs(b);
    if (a < 0) == (b < 0) then q else -q
  }

  /** The remainder that goes with TruncDiv: it takes the sign of the dividend. */
  function TruncRem(a: int, b: int): int
    requires b != 0
  {
    var r := Abs(a) % Abs(b);
    if a < 0 then -r else r
  }

  /** Truncated division as a relation: the remainder is small and signed like the dividend. */
  predicate Truncates(a: int, b: int, q: int, r: int) {
    a == b * q + r && Abs(r) < Abs(b) && (r == 0 || (r < 0) == (a < 0))
  }

  lemma TruncDivision(a: int, b: int)
    requires b != 0
    ensures Truncates(a, b, TruncDiv(a, b), TruncRem(a, b))
  {
    var q0, r0 := DivMod(Abs(a), Abs(b));
    assert b * TruncDiv(a, b) == if a < 0 then -(Abs(b) * q0) else Abs(b) * q0;
  }

  /** The relation has one solution. */
  lemma TruncUnique(a: int, b: int, q: int, r: int, q': int, r': int)
    requires b != 0 && Truncates(a, b, q, r) && Truncates(a, b, q', r')
    ensures q == q' && r == r'
  {
    MulMinus(b, q, q');
    NoMultipleBetween(b, q - q', r' - r);
  }

  /** Only zero is a multiple of `g` that is smaller than `g`. */
  lemma NoMultipleBetween(g: int, k: int, gap: int)
    requires Abs(gap) < Abs(g) && gap == g * k
    ensures k == 0 && gap == 0
  {
    ProductMagnitude(g, k);
    if k != 0 { MulAtLeast(Abs(g), Abs(k)); }
  }

  lemma ProductMagnitude(a: int, b: int)
    ensures Abs(a * b) == Abs(a) * Abs(b)
  {
    MulNegatedLeft(a, b);
    MulNegated(a, b);
    MulNegated(-a, b);
    MulNat(Abs(a), Abs(b));
  }

  lemma MulMinus(a: int, b: int, c: int)
    ensures a * (b - c) == a * b - a * c
  {
  }

  lemma MulNegatedLeft(a: int, b: int)
    ensures -a * b == -(a * b)
  {
  }

  lemma MulNegated(a: int, b: int)
    ensures a * -b == -(a * b)
  {
  }

  /** The two's-complement reading of a word of `2 * half` values. */
  function Reading(v: nat, half: nat): int {
    if v < half then v else v - 2 * half
  }

  /** The word that reads as `a`, or the wrapped word when `a` is out of range. */
  function Encode(a: int, half: nat): nat
    requires half > 0
  {
    a % (2 * half)
  }

  lemma EncodeInRange(a: int, half: nat)
    requires half > 0 && 0 - half <= a < half
    ensures Encode(a, half) == (if a < 0 then a + 2 * half else a)
    ensures Reading(Encode(a, half), half) == a
  {
    if a < 0 { ModWrap(a, 2 * half); } else { DivModUnique(a, 2 * half, 0, a); }
  }

  lemma ModWrap(a: int, m: nat)
    requires 0 - m <= a < 0 && m > 0
    ensures a % m == a + m
  {
    var q, r := a / m, a % m;
    assert m * (q + 1) == a + m - r;
    MulNegated(m, q + 1);
    if q + 1 >= 1 { MulAtLeast(m, q + 1); }
    if -(q + 1) >= 1 { MulAtLeast(m, -(q + 1)); }
  }

  /** Encoding a magnitude with a sign, up to and including the one magnitude that wraps. */
  lemma EncodeMagnitude(q: nat, negative: bool, half: nat)
    requires half > 0 && q <= half
    ensures Encode(if negative then 0 - q else q, half) == if negative && q != 0 then 2 * half - q else q
  {
    if negative && q != 0 { ModWrap(0 - q, 2 * half); } else { DivModUnique(q, 2 * half, 0, q); }
  }

  lemma QuotientMagnitude(a: int, b: int)
    requires b != 0
    ensures Abs(a) / Abs(b) <= Abs(a)
    ensures Abs(a) > 0 ==> (Abs(a) / Abs(b) == Abs(a) <==> Abs(b) == 1)
  {
    var q, r := DivMod(Abs(a), Abs(b));
    QuotientShrinks(Abs(a), Abs(b), q, r);
    if Abs(b) == 1 { DivModUnique(Abs(a), Abs(b), Abs(a), 0); }
  }

  lemma QuotientShrinks(a: nat, b: nat, q: nat, r: nat)
    requires b > 0 && a == b * q + r
    ensures q <= a && (b >= 2 && a > 0 ==> q < a)
  {
    if b >= 2 {
      assert b * q == 2 * q + (b - 2) * q;
      assert (b - 2) * q >= 0 by { MulNat(b - 2, q); }
    }
  }

  lemma MulNat(a: nat, b: nat)
    ensures a * b >= 0
  {
  }

  /** The truncated quotient is the quotient of the magnitudes, signed. */
  lemma SignedQuotient(a: int, b: int, q: int)
    requires b != 0 && q == Abs(a) / Abs(b)
    ensures TruncDiv(a, b) == (if (a < 0) != (b < 0) then 0 - q else q)
    ensures 0 <= q <= Abs(a) && (a != 0 ==> (q == Abs(a) <==> Abs(b) == 1))
  {
    QuotientMagnitude(a, b);
    if a == 0 { DivModUnique(0, Abs(b), 0, 0); }
  }

  /** Dividing two words gives a word that reads as the quotient, except for minimum / -1. */
  lemma QuotientReading(a: int, b: int, half: nat)
    requires half > 0 && b != 0 && 0 - half <= a < half && 0 - half <= b < half
    ensures Reading(Encode(TruncDiv(a, b), half), half) == TruncDiv(a, b)
            <==> !(a == 0 - half && b == -1)
  {
    var q := Abs(a) / Abs(b);
    SignedQuotient(a, b, q);
    hide TruncDiv, Reading, Encode;
    MagnitudeReading(q, (a < 0) != (b < 0), half);
  }

  /** A signed magnitude is read back, except for the one above the largest word. */
  lemma MagnitudeReading(q: nat, negative: bool, half: nat)
    requires half > 0 && q <= half
    ensures var a: int := if negative then 0 - q else q;
            Reading(Encode(a, half), half) == a <==> negative || q != half
  {
    EncodeMagnitude(q, negative, half);
    hide Encode;
  }
}
