/** The reciprocals the division code multiplies by: a table entry refined by three Newton steps,
    all in wrapping 64-bit arithmetic. The lemmas follow the exact error of each step. */
module Reciprocal {
  import opened Words
  import opened UInt128

  predicate Normalized(d: nat) {
    0x8000_0000_0000_0000 <= d < TWO64
  }

  /** An entry of the 256-entry lookup table, indexed by the byte below the leading bit. */
  function TableItem(d9: Byte): U64 {
    EntryFits(d9, 0x100 + d9);
    0x7fd00 / (0x100 + d9)
  }

  lemma EntryFits(d9: Byte, e: nat)
    requires e == 0x100 + d9
    ensures 0 <= 0x7fd00 / e < TWO64
  {
    var q, r := DivMod(0x7fd00, e);
    if q >= TWO64 { MulBound(e, TWO64, e, q); }
  }

  /** `x & mask` for a mask of all zeros or all ones (see MaskIsAnd). */
  function MaskWith(x: U64, mask: U64): U64
    requires mask == 0 || mask == TWO64 - 1
  {
    if mask == 0 then 0 else x
  }

  lemma MaskIsAnd(x: U64, mask: U64)
    requires mask == 0 || mask == TWO64 - 1
    ensures MaskWith(x, mask) == And(x, mask)
  {
    if mask == 0 {
      AndZero(x);
    } else {
      var k := 64;
      Power64(k);
      AndLowMask(x, k);
    }
  }

  function First(d: U64): (v0: U64) {
    TableItem(d / 0x80_0000_0000_0000 % 0x100)
  }

  function Second(v0: U64, d40: U64): U64 {
    Wrap(Wrap(v0 * 0x800) - Wrap(Wrap(v0 * v0) * d40) / 0x100_0000_0000 - 1)
  }

  function Third(v1: U64, d40: U64): U64 {
    Wrap(Wrap(v1 * 0x2000) + Wrap(v1 * Wrap(0x1000_0000_0000_0000 - Wrap(v1 * d40))) / 0x8000_0000_0000)
  }

  /** The error word of step 3, `e`. */
  function FourthResidue(v2: U64, d: U64): U64 {
    var d0 := d % 2;
    var d63 := d / 2 + d0;
    var nd0 := Wrap(-d0);
    Wrap(MaskWith(v2 / 2, nd0) - Wrap(v2 * d63))
  }

  function Fourth(v2: U64, d: U64): U64 {
    var e := FourthResidue(v2, d);
    var mh := Umul(v2, e).hi;
    Wrap(Wrap(v2 * 0x8000_0000) + mh / 2)
  }

  function Last(v3: U64, d: U64): U64 {
    var mf := Umul(v3, d);
    var m := Add(mf, U128(0, d));
    var v3a := Wrap(m.hi + d);
    Wrap(v3 - v3a)
  }

  // ----- Step 0: the table -----

  lemma FirstError(d: U64, d40: nat)
    requires Normalized(d) && d40 == d / 0x100_0000 + 1
    ensures 1 <= First(d) <= 2045
    ensures -1277 * 0x8000_0000 <= 0x4_0000_0000_0000 - First(d) * d40 <= 1278 * 0x8000_0000
  {
    var D := d / 0x80_0000_0000_0000;
    var v0 := First(d);
    assert 256 <= D <= 511;
    assert v0 == 0x7fd00 / D;
    var r := 0x7fd00 % D;
    var low := d40 - 0x8000_0000 * D;
    assert 1 <= low <= 0x8000_0000;
    TableRange(D, v0, r);
    TableError(D, v0, r, low, d40);
  }

  lemma TableRange(D: nat, v0: nat, r: nat)
    requires 256 <= D <= 511 && v0 == 0x7fd00 / D && r == 0x7fd00 % D
    ensures 1 <= v0 <= 2045 && v0 * D == 0x7fd00 - r && 0 <= r <= 510
  {
    assert 0x7fd00 == D * v0 + r;
    if v0 > 2045 { MulBound(256, 2046, D, v0); }
    if v0 < 1 { NonPositiveProduct(v0, D); }
  }

  lemma TableError(D: nat, v0: nat, r: nat, low: nat, d40: nat)
    requires v0 <= 2045 && v0 * D == 0x7fd00 - r && r <= 510
    requires low <= 0x8000_0000 && d40 == 0x8000_0000 * D + low
    ensures -1277 * 0x8000_0000 <= 0x4_0000_0000_0000 - v0 * d40 <= 1278 * 0x8000_0000
  {
    MulBound(v0, low, 2045, 0x8000_0000);
    assert v0 * d40 == 0x8000_0000 * (v0 * D) + v0 * low;
  }

  // ----- Step 1 -----

  lemma SecondError(v0: nat, d40: nat)
    requires 1 <= v0 <= 2045 && 0x80_0000_0000 < d40 <= 0x100_0000_0000
    requires -1277 * 0x8000_0000 <= 0x4_0000_0000_0000 - v0 * d40 <= 1278 * 0x8000_0000
    ensures 0 < Second(v0, d40) < 0x20_0000
    ensures 0 < 0x1000_0000_0000_0000 - Second(v0, d40) * d40 <= 1895428 * 0x40_0000
  {
    MulBound(v0, v0, 2045, 2045);
    MulBound(v0 * v0, d40, 2045 * 2045, 0x100_0000_0000);
    var s := v0 * v0 * d40;
    var q, rho := DivMod(s, 0x100_0000_0000);
    var v1 := 0x800 * v0 - q - 1;
    var e0 := 0x4_0000_0000_0000 - v0 * d40;
    SecondIdentity(v0, d40, q, rho, v1, e0);
    SquareBound(e0, 1278 * 0x8000_0000);
    MulBound(0x100_0000_0000 - rho, d40, 0x100_0000_0000, 0x100_0000_0000);
    PositiveProduct(0x100_0000_0000 - rho, d40);
    var e1 := 0x1000_0000_0000_0000 - v1 * d40;
    assert 0 < 0x100_0000_0000 * e1 <= 1633284 * 0x4000_0000_0000_0000 + 0x100_0000_0000 * 0x100_0000_0000;
    QuotientBelow(v1, d40, 0x20_0000, 0x80_0000_0000);
    SecondCode(v0, d40, q, v1);
  }

  lemma SecondCode(v0: nat, d40: U64, q: nat, v1: int)
    requires v0 <= 2045 && 0 <= v0 * v0 <= 2045 * 2045 && 0 <= v0 * v0 * d40 < TWO64
    requires q == v0 * v0 * d40 / 0x100_0000_0000 && v1 == 0x800 * v0 - q - 1 && 0 <= v1 < TWO64
    ensures Second(v0, d40) == v1
  {
    WrapSmall(v0 * 0x800);
    WrapSmall(v0 * v0);
    WrapSmall(v0 * v0 * d40);
    WrapSmall(v1);
  }

  lemma SecondIdentity(v0: nat, d40: nat, q: nat, rho: nat, v1: int, e0: int)
    requires v0 * v0 * d40 == 0x100_0000_0000 * q + rho && v1 == 0x800 * v0 - q - 1
    requires e0 == 0x4_0000_0000_0000 - v0 * d40
    ensures 0x100_0000_0000 * (0x1000_0000_0000_0000 - v1 * d40) == e0 * e0 + (0x100_0000_0000 - rho) * d40
  {
    var p := v0 * d40;
    var w := 0x8_0000_0000_0000 * v0 - v0 * v0 * d40 + rho - 0x100_0000_0000;
    assert 0x100_0000_0000 * v1 == w;
    Assoc(0x100_0000_0000, v1, d40);
    SecondExpand(v0, d40, rho, p, w);
    SquareOfDifference(0x4_0000_0000_0000, p);
    Distribute(0x100_0000_0000, rho, d40);
  }

  lemma Assoc(a: int, b: int, c: int)
    ensures a * (b * c) == (a * b) * c
  {
  }

  lemma Distribute(a: int, b: int, c: int)
    ensures (a - b) * c == a * c - b * c
  {
  }

  lemma SquareOfDifference(a: int, b: int)
    ensures (a - b) * (a - b) == a * a - 2 * a * b + b * b
  {
  }

  lemma SecondExpand(v0: int, d40: int, rho: int, p: int, w: int)
    requires p == v0 * d40
    requires w == 0x8_0000_0000_0000 * v0 - v0 * v0 * d40 + rho - 0x100_0000_0000
    ensures w * d40 == 0x8_0000_0000_0000 * p - p * p + rho * d40 - 0x100_0000_0000 * d40
  {
    assert (v0 * v0 * d40) * d40 == p * p;
  }

  lemma SquareBound(x: int, b: int)
    requires 0 - b <= x <= b
    ensures 0 <= x * x <= b * b
  {
    if x >= 0 { MulBound(x, x, b, b); } else { MulBound(-x, -x, b, b); assert (-x) * (-x) == x * x; }
  }

  lemma PositiveProduct(a: int, b: int)
    requires a > 0 && b > 0
    ensures a * b > 0
  {
  }

  /** `0 < x*d < bound * low` with `d > low` pins `x` between 0 and `bound`. */
  lemma QuotientBelow(x: int, d: nat, bound: nat, low: nat)
    requires d > low > 0 && 0 < x * d < bound * low
    ensures 0 < x < bound
  {
    if x <= 0 { NonPositiveProduct(x, d); }
    if x >= bound { MulBound(bound, low, x, d); }
  }

  lemma NonPositiveProduct(x: int, d: nat)
    requires x <= 0
    ensures x * d <= 0
  {
  }

  // ----- Step 2 -----

  const T60: nat := 0x1000_0000_0000_0000
  const T63: nat := 0x8000_0000_0000_0000
  const T97: nat := 0x2_0000_0000_0000_0000_0000_0000

  lemma ThirdError(v1: nat, d40: nat, d: nat)
    requires Normalized(d) && d40 == d / 0x100_0000 + 1
    requires 0 < v1 < 0x20_0000 && 0 < T60 - v1 * d40 <= 1895428 * 0x40_0000
    ensures 0 < Third(v1, d40) < 0x8_0000_0000
    ensures 0 < T97 - Third(v1, d40) * d <= d + T63
  {
    var e1 := T60 - v1 * d40;
    var delta := 0x100_0000 * d40 - d;
    assert 1 <= delta <= 0x100_0000;
    MulBound(v1, e1, 0x20_0000, 1895428 * 0x40_0000);
    var s := v1 * e1;
    var q, theta := DivMod(s, 0x8000_0000_0000);
    var v2 := 0x2000 * v1 + q;
    ThirdCode(v1, d40, e1, s, q, v2);
    ThirdIdentity(v1, d40, d, delta, e1, q, theta, v2);
    ThirdBounds(v1, d, delta, e1, theta);
    var e2 := T97 - v2 * d;
    ThirdScale(e2, d, e1, (T60 + e1) * (v1 * delta), theta * d);
    QuotientBelow(v2, d, 0x8_0000_0000, T63 - 1);
  }

  lemma ThirdCode(v1: nat, d40: U64, e1: nat, s: nat, q: nat, v2: nat)
    requires v1 < 0x20_0000 && e1 == T60 - v1 * d40 && e1 <= T60 && s == v1 * e1 && s < TWO64
    requires q == s / 0x8000_0000_0000 && v2 == 0x2000 * v1 + q
    ensures Third(v1, d40) == v2
  {
    WrapSmall(v1 * 0x2000);
    var m := v1 * d40;
    WrapSmall(m);
    WrapSmall(T60 - m);
    WrapSmall(s);
    WrapSmall(v2);
  }

  lemma ThirdIdentity(v1: int, d40: int, d: int, delta: int, e1: int, q: int, theta: int, v2: int)
    requires d == 0x100_0000 * d40 - delta && e1 == T60 - v1 * d40
    requires v1 * e1 == 0x8000_0000_0000 * q + theta && v2 == 0x2000 * v1 + q
    ensures 0x8000_0000_0000 * (T97 - v2 * d)
            == 0x100_0000 * (e1 * e1) + (T60 + e1) * (v1 * delta) + theta * d
  {
    var a := v1 * d;
    assert a == 0x100_0000 * (T60 - e1) - v1 * delta by { Distribute2(0x100_0000, v1, d40, delta, d); }
    assert 0x8000_0000_0000 * v2 == T60 * v1 + v1 * e1 - theta;
    assert (0x8000_0000_0000 * v2) * d == T60 * a + e1 * a - theta * d by {
      ThirdExpand(v1, e1, theta, d, a);
    }
    Assoc(0x8000_0000_0000, v2, d);
    ThirdSquare(e1, v1 * delta, a);
  }

  lemma Distribute2(k: int, v1: int, d40: int, delta: int, d: int)
    requires d == k * d40 - delta
    ensures v1 * d == k * (v1 * d40) - v1 * delta
  {
  }

  lemma ThirdExpand(v1: int, e1: int, theta: int, d: int, a: int)
    requires a == v1 * d
    ensures (T60 * v1 + v1 * e1 - theta) * d == T60 * a + e1 * a - theta * d
  {
    assert (v1 * e1) * d == e1 * a;
  }

  lemma ThirdSquare(e1: int, w: int, a: int)
    requires a == 0x100_0000 * (T60 - e1) - w
    ensures T60 * a + e1 * a == 0x100_0000 * (T60 * T60) - 0x100_0000 * (e1 * e1) - (T60 + e1) * w
  {
    assert e1 * a == 0x100_0000 * (T60 * e1) - 0x100_0000 * (e1 * e1) - e1 * w;
    assert (T60 + e1) * w == T60 * w + e1 * w;
  }

  lemma ThirdBounds(v1: nat, d: nat, delta: nat, e1: nat, theta: nat)
    requires 0 < v1 < 0x20_0000 && 1 <= delta <= 0x100_0000 && theta < 0x8000_0000_0000
    requires 0 < e1 <= 1895428 * 0x40_0000
    ensures 0 <= e1 * e1 <= 1895428 * 1895428 * 0x1000_0000_0000
    ensures 0 < (T60 + e1) * (v1 * delta) <= 2 * T60 * 0x2000_0000_0000
    ensures 0 <= theta * d <= 0x8000_0000_0000 * d
  {
    MulBound(e1, e1, 1895428 * 0x40_0000, 1895428 * 0x40_0000);
    MulBound(v1, delta, 0x20_0000, 0x100_0000);
    PositiveProduct(v1, delta);
    MulBound(T60 + e1, v1 * delta, 2 * T60, 0x2000_0000_0000);
    PositiveProduct(T60 + e1, v1 * delta);
    MulBound(theta, d, 0x8000_0000_0000, d);
  }

  lemma ThirdScale(e2: int, d: nat, e1: int, w: int, t: int)
    requires 0 <= e1 * e1 <= 1895428 * 1895428 * 0x1000_0000_0000
    requires 0 < w <= 2 * T60 * 0x2000_0000_0000 && 0 <= t <= 0x8000_0000_0000 * d
    requires 0x8000_0000_0000 * e2 == 0x100_0000 * (e1 * e1) + w + t
    ensures 0 < e2 <= d + T63
  {
  }

  // ----- Step 3 -----

  const T65: nat := 0x2_0000_0000_0000_0000
  const T96: nat := 0x1_0000_0000_0000_0000_0000_0000

  /** The value step 3 computes before it wraps to 64 bits. */
  function FourthFull(v2: nat, e: nat): nat {
    0x8000_0000 * v2 + v2 * e / T65
  }

  lemma FourthError(v2: nat, d: nat, e2: nat, e: nat)
    requires Normalized(d) && 0 < v2 < 0x8_0000_0000 && e2 == T97 - v2 * d && 0 < e2 <= d + T63 && e == e2 / 2
    ensures Fourth(v2, d) == Wrap(FourthFull(v2, e))
    ensures 0 < TWO128 - FourthFull(v2, e) * d <= 2 * d
  {
    FourthCode(v2, d, e2, e);
    MulBound(v2, e, v2, e);
    var q, theta := DivMod(v2 * e, T65);
    FourthIdentity(v2, d, e2, e, e2 % 2, q, theta, FourthFull(v2, e));
    FourthBounds(d, e2, e, e2 % 2, theta, TWO128 - FourthFull(v2, e) * d);
  }

  lemma FourthIdentity(v2: int, d: int, e2: int, e: int, phi: int, q: int, theta: int, V: int)
    requires e2 == T97 - v2 * d && e2 == 2 * e + phi
    requires v2 * e == T65 * q + theta && V == 0x8000_0000 * v2 + q
    ensures T65 * (TWO128 - V * d) == T96 * phi + e2 * e + theta * d
  {
    assert T65 * V == T96 * v2 + v2 * e - theta;
    Assoc(T65, V, d);
    var a := v2 * d;
    assert (T96 * v2 + v2 * e - theta) * d == T96 * a + e * a - theta * d by { FourthExpand(v2, e, theta, d, a); }
    assert e * a == T97 * e - e2 * e by { assert a == T97 - e2; Distribute(T97, e2, e); }
  }

  lemma FourthExpand(v2: int, e: int, theta: int, d: int, a: int)
    requires a == v2 * d
    ensures (T96 * v2 + v2 * e - theta) * d == T96 * a + e * a - theta * d
  {
    assert (v2 * e) * d == e * a;
  }

  lemma FourthBounds(d: nat, e2: nat, e: nat, phi: nat, theta: nat, E3: int)
    requires Normalized(d) && 0 < e2 <= d + T63 && e2 == 2 * e + phi && phi < 2 && theta < T65
    requires T65 * E3 == T96 * phi + e2 * e + theta * d
    ensures 0 < E3 <= 2 * d
  {
    MulBound(theta, d, T65 - 1, d);
    if phi == 0 { PositiveProduct(e2, e); } else { MulBound(e2, e, e2, e); }
    assert E3 > 0;
    MulBound(e2, e2, d + T63, d + T63);
    MulBound(d + T63, d + T63, 2 * d, 3 * T63);
    assert 2 * (e2 * e) <= e2 * e2 by { MulBound(e2, 2 * e, e2, e2); Assoc(2, e2, e); Assoc(e2, 2, e); }
  }

  lemma FourthCode(v2: nat, d: nat, e2: nat, e: nat)
    requires Normalized(d) && v2 < 0x8_0000_0000 && e2 == T97 - v2 * d && e2 <= d + T63 && e == e2 / 2
    ensures e < TWO64 && Fourth(v2, d) == Wrap(FourthFull(v2, e))
  {
    FourthResidueValue(v2, d, e2, e);
    FourthTail(v2, e);
  }

  lemma FourthTail(v2: U64, e: U64)
    ensures Wrap(Wrap(v2 * 0x8000_0000) + Umul(v2, e).hi / 2) == Wrap(FourthFull(v2, e))
  {
    UmulHighHalf(v2, e);
    WrapOfSum(v2 * 0x8000_0000, Umul(v2, e).hi / 2);
  }

  lemma FourthResidueValue(v2: nat, d: nat, e2: nat, e: nat)
    requires Normalized(d) && v2 < 0x8_0000_0000 && e2 == T97 - v2 * d && e2 <= d + T63 && e == e2 / 2
    ensures e < TWO64 && FourthResidue(v2, d) == e
  {
    var d0 := d % 2;
    var d63 := d / 2 + d0;
    HalfError(v2, d, e2, e, d63, d0);
    MulBound(v2, d63, v2, d63);
    MaskOfParity(v2 / 2, d0);
    WrapOfWrap(MaskWith(v2 / 2, Wrap(-d0)), v2 * d63, e);
  }

  lemma MaskOfParity(x: U64, d0: int)
    requires 0 <= d0 < 2
    ensures MaskWith(x, Wrap(-d0)) == if d0 == 0 then 0 else x
  {
  }

  lemma UmulHighHalf(x: U64, y: U64)
    ensures Umul(x, y).hi / 2 == x * y / T65
  {
    HalfHigh(Umul(x, y).hi, Umul(x, y).lo, x * y);
  }

  lemma HalfHigh(hi: nat, lo: nat, v: nat)
    requires lo < TWO64 && v == hi * TWO64 + lo
    ensures hi / 2 == v / T65
  {
  }

  lemma HalfError(v2: nat, d: nat, e2: int, e: int, d63: nat, d0: nat)
    requires d0 == d % 2 && d63 == d / 2 + d0 && e2 == T97 - v2 * d && e == e2 / 2
    ensures e == T96 - v2 * d63 + (if d0 == 0 then 0 else v2 / 2)
  {
    var h := v2 * (d / 2);
    assert v2 * d == 2 * h + v2 * d0 by { assert d == 2 * (d / 2) + d0; }
    assert v2 * d63 == h + v2 * d0;
    if d0 == 0 {
    } else {
      assert d0 == 1;
    }
  }

  lemma WrapOfWrap(k: nat, m: nat, e: nat)
    requires e < TWO64 && e == T96 - m + k
    ensures Wrap(k - Wrap(m)) == e
  {
    var c, w := DivMod(m, TWO64);
    var f := (c as int) - 0x1_0000_0000;
    assert k - w == TWO64 * f + e;
    ModShift(e, TWO64, f);
  }

  lemma WrapOfSum(a: nat, b: nat)
    ensures Wrap(Wrap(a) + b) == Wrap(a + b)
  {
    var c, w := DivMod(a, TWO64);
    ModShift(w + b, TWO64, c);
  }

  // ----- The last correction -----

  /** For every normalized word the result is `floor((2^128 - 1) / d) - 2^64`. */
  method Reciprocal2by1(d: U64) returns (v4: U64)
    requires Normalized(d)
    ensures v4 == (TWO128 - 1) / d - TWO64
  {
    var v0 := First(d);
    var d40 := Wrap(d / 0x100_0000 + 1);
    FirstError(d, d40);
    var v1 := Second(v0, d40);
    SecondError(v0, d40);
    var v2 := Third(v1, d40);
    ThirdError(v1, d40, d);
    var v3 := Fourth(v2, d);
    ghost var e2 := T97 - v2 * d;
    FourthError(v2, d, e2, e2 / 2);
    v4 := Last(v3, d);
    LastCorrection(FourthFull(v2, e2 / 2), d);
  }

  lemma LastCorrection(V: nat, d: U64)
    requires Normalized(d) && 0 < TWO128 - V * d <= 2 * d
    ensures Last(Wrap(V), d) == (TWO128 - 1) / d - TWO64
  {
    var R, rest := DivMod(TWO128 - 1, d);
    LastCorrectionBy(V, d, R, rest);
  }

  lemma LastCorrectionBy(V: nat, d: U64, R: nat, rest: nat)
    requires Normalized(d) && TWO128 - 1 == d * R + rest && rest < d
    requires 0 < TWO128 - V * d <= 2 * d
    ensures Last(Wrap(V), d) == R - TWO64
  {
    CandidateRange(V, d, R, rest);
    var m := LastUnfold(V, d);
    MulBound(V + 1, d, V + 1, d);
    Expand1(V, d);
    LastHigh(V, d, R, rest, (V + 1) * d, m);
  }

  lemma Expand1(V: int, d: int)
    ensures (V + 1) * d == d * V + d
  {
  }

  lemma LastUnfold(V: nat, d: U64) returns (m: U128)
    requires TWO64 <= V < T65
    ensures Val(m) == (V + 1) * d - TWO64 * d
    ensures Last(Wrap(V), d) == Wrap(V - TWO64 - Wrap(m.hi + d))
  {
    hide Umul, Add, Val;
    WrapTop(V);
    LastSum(V, d);
    m := Add(Umul(V - TWO64, d), U128(0, d));
  }

  lemma WrapTop(V: nat)
    requires TWO64 <= V < T65
    ensures Wrap(V) == V - TWO64
  {
  }

  lemma LastSum(V: nat, d: U64)
    requires TWO64 <= V < T65
    ensures Val(Add(Umul(V - TWO64, d), U128(0, d))) == (V + 1) * d - TWO64 * d
  {
    var v3 := V - TWO64;
    Distribute(V + 1, TWO64, d);
    assert (v3 + 1) * d == v3 * d + d;
    MulBound(v3 + 1, d, TWO64, TWO64 - 1);
  }

  /** The candidate is the reciprocal (plus 2^64) or one below it. */
  lemma CandidateRange(V: nat, d: nat, R: nat, rest: nat)
    requires Normalized(d) && TWO128 - 1 == d * R + rest && rest < d
    requires 0 < TWO128 - V * d <= 2 * d
    ensures R == V || R == V + 1
    ensures TWO64 < R < T65
  {
    assert (V + 2) * d == V * d + 2 * d;
    assert (R + 1) * d == R * d + d;
    if R >= V + 2 { MulBound(V + 2, d, R, d); }
    if R < V { MulBound(R + 1, d, V, d); }
    if R <= TWO64 { MulBound(R, d, TWO64, d); }
    if R >= T65 { MulBound(T65, T63, R, d); }
  }

  lemma LastHigh(V: nat, d: U64, R: nat, rest: nat, t: nat, m: U128)
    requires Normalized(d) && TWO128 - 1 == d * R + rest && rest < d && (R == V || R == V + 1)
    requires TWO64 <= V && R < T65 && t == d * V + d
    requires Val(m) == t - TWO64 * d
    ensures Wrap(V - TWO64 - Wrap(m.hi + d)) == R - TWO64
  {
    if R == V {
      assert t == TWO128 - 1 - rest + d;
      LastHighExact(V, d, rest, m);
    } else {
      assert t == TWO128 - 1 - rest by { Expand1(V, d); }
      LastHighBelow(V, d, rest, m);
    }
  }

  lemma LastHighExact(V: nat, d: U64, rest: nat, m: U128)
    requires rest < d && TWO64 <= V < T65 && Val(m) == TWO128 - 1 - rest + d - TWO64 * d
    ensures Wrap(V - TWO64 - Wrap(m.hi + d)) == V - TWO64
  {
    assert m.hi + d == TWO64;
  }

  lemma LastHighBelow(V: nat, d: U64, rest: nat, m: U128)
    requires rest < d && TWO64 <= V && V + 1 < T65 && Val(m) == TWO128 - 1 - rest - TWO64 * d
    ensures Wrap(V - TWO64 - Wrap(m.hi + d)) == V + 1 - TWO64
  {
    assert m.hi + d == TWO64 - 1;
  }
}
