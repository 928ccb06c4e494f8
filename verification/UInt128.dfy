/** The 128-bit integer type of intx: two 64-bit words, operators that wrap word by word,
    and the portable 64 x 64 -> 128 multiplication. `Val` is the number a pair stands for. */
module UInt128 {
  import opened Words

  datatype U128 = U128(hi: U64, lo: U64)

  function Val(x: U128): (v: nat)
    ensures v < TWO128
  {
    x.hi * TWO64 + x.lo
  }

  function Wrap(x: int): U64 {
    x % TWO64
  }

  function OfNat(v: nat): (x: U128)
    requires v < TWO128
    ensures Val(x) == v
  {
    U128(v / TWO64, v % TWO64)
  }

  lemma ValInjective(x: U128, y: U128)
    requires Val(x) == Val(y)
    ensures x == y
  {
  }

  // ----- Addition, subtraction, comparison -----

  function Add(x: U128, y: U128): (r: U128)
    ensures Val(r) == if Val(x) + Val(y) < TWO128 then Val(x) + Val(y) else Val(x) + Val(y) - TWO128
  {
    WrapSum(x.lo, y.lo);
    var lo := Wrap(x.lo + y.lo);
    var carry := if x.lo > lo then 1 else 0;
    WrapSum(x.hi, y.hi + carry);
    U128(Wrap(x.hi + y.hi + carry), lo)
  }

  function Sub(x: U128, y: U128): (r: U128)
    ensures Val(r) == if Val(x) >= Val(y) then Val(x) - Val(y) else Val(x) - Val(y) + TWO128
  {
    WrapDifference(x.lo, y.lo);
    var lo := Wrap(x.lo - y.lo);
    var borrow := if x.lo < lo then 1 else 0;
    WrapDifference(x.hi, y.hi + borrow);
    U128(Wrap(x.hi - y.hi - borrow), lo)
  }

  lemma WrapSum(a: nat, b: nat)
    requires a < TWO64 && b <= TWO64
    ensures Wrap(a + b) == if a + b < TWO64 then a + b else a + b - TWO64
  {
  }

  lemma WrapDifference(a: nat, b: nat)
    requires a < TWO64 && b <= TWO64
    ensures Wrap(a - b) == if a >= b then a - b else a - b + TWO64
  {
  }

  function Neg(x: U128): (r: U128)
    ensures Val(r) == if Val(x) == 0 then 0 else TWO128 - Val(x)
  {
    Sub(U128(0, 0), x)
  }

  predicate Lt(x: U128, y: U128)
    ensures Lt(x, y) <==> Val(x) < Val(y)
  {
    x.hi < y.hi || (x.hi == y.hi && x.lo < y.lo)
  }

  predicate Ge(x: U128, y: U128)
    ensures Ge(x, y) <==> Val(x) >= Val(y)
  {
    !Lt(x, y)
  }

  // ----- Shifts -----

  /** The two halves a 64-bit left shift separates. */
  lemma Split64(x: nat, s: nat)
    requires 0 < s < 64 && x < TWO64
    ensures Exp(2, s) > 0 && Exp(2, 64 - s) > 0 && Exp(2, s) * Exp(2, 64 - s) == TWO64
    ensures x == Exp(2, 64 - s) * Shr(x, 64 - s) + x % Exp(2, 64 - s)
    ensures Shr(x, 64 - s) < Exp(2, s)
    ensures Shl64(x, s) == x % Exp(2, 64 - s) * Exp(2, s)
    ensures Shl64(x, s) + Exp(2, s) <= TWO64
  {
    var p, q := Exp(2, s), Exp(2, 64 - s);
    ExpPositive(2, s);
    ExpPositive(2, 64 - s);
    ExpAdd(2, s, 64 - s);
    Power64(s + (64 - s));
    SplitBy(x, p, q);
  }

  lemma SplitBy(x: nat, p: nat, q: nat)
    requires p > 0 && q > 0 && p * q == TWO64 && x < TWO64
    ensures x == q * (x / q) + x % q && x / q < p
    ensures (x * p) % TWO64 == x % q * p
    ensures x % q * p + p <= TWO64
  {
    var h, l := DivMod(x, q);
    assert h < p by { if h >= p { MulLe(q, p, h); } }
    MulLe(p, l + 1, q);
    assert x * p == TWO64 * h + l * p by { assert (q * h + l) * p == (p * q) * h + l * p; }
    assert l * p + p <= TWO64;
    DivModUnique(x * p, TWO64, h, l * p);
  }

  lemma MulLe(a: nat, b: nat, c: nat)
    requires b <= c
    ensures a * b <= a * c
  {
  }

  /** `(lo >> (64 - s)) | (hi << s)`: the high word of a two-word left shift. */
  function ShlHigh(hi: U64, lo: U64, s: nat): (r: U64)
    requires 0 < s < 64
  {
    Split64(hi, s);
    Split64(lo, s);
    MulMod(hi % Exp(2, 64 - s), Exp(2, s));
    Join(Shl64(hi, s), Shr(lo, 64 - s), s)
  }

  lemma MulMod(a: nat, p: nat)
    requires p > 0
    ensures (a * p) % p == 0
  {
    ModShift(0, p, a);
  }

  /** A two-word value shifted left by `s`: the bits pushed out, and the two words that stay. */
  lemma ShlWords(hi: U64, lo: U64, s: nat)
    requires 0 < s < 64
    ensures Shr(hi, 64 - s) < Exp(2, s)
    ensures (hi * TWO64 + lo) * Exp(2, s)
            == (Shr(hi, 64 - s) * TWO64 + ShlHigh(hi, lo, s)) * TWO64 + Shl64(lo, s)
  {
    Split64(hi, s);
    Split64(lo, s);
    var p, q := Exp(2, s), Exp(2, 64 - s);
    ShlValue(hi, lo, p, q, Shr(hi, 64 - s), hi % q, Shr(lo, 64 - s), lo % q);
  }

  lemma ShlValue(hi: nat, lo: nat, p: nat, q: nat, h: nat, hl: nat, l: nat, ll: nat)
    requires p * q == TWO64 && hi == q * h + hl && lo == q * l + ll
    ensures (hi * TWO64 + lo) * p == (h * TWO64 + (hl * p + l)) * TWO64 + ll * p
  {
    assert (q * h + hl) * p == h * (p * q) + hl * p;
    assert (q * l + ll) * p == l * (p * q) + ll * p;
    assert (hi * TWO64 + lo) * p == (hi * p) * TWO64 + lo * p;
  }

  /** `x >> s`. Below 64 the code moves the high bits down in two shifts, `(hi << 1) << (63 - s)`,
      so that `s == 0` stays defined; ShlTwice and ShlClears show what the two shifts amount to. */
  function ShiftRight(x: U128, s: nat): (r: U128)
    ensures Exp(2, s) > 0 && Val(r) == Val(x) / Exp(2, s)
  {
    if s >= 64 then
      ShiftFar(x.hi, x.lo, s);
      if s < 128 then U128(0, Shr(x.hi, s - 64)) else U128(0, 0)
    else
      var moved := Shl64(Shl64(x.hi, 1), 63 - s);
      if s == 0 then
        ShlClears(x.hi, 63);
        U128(Shr(x.hi, s), Shr(x.lo, s) + moved)
      else
        ShlTwice(x.hi, 63 - s);
        ShiftRightJoin(x.hi, x.lo, s);
        U128(Shr(x.hi, s), Join(moved, Shr(x.lo, s), 64 - s))
  }

  /** Shifts by a word or more see the high word only. */
  lemma ShiftFar(hi: U64, lo: U64, s: nat)
    requires s >= 64
    ensures Exp(2, s) > 0
    ensures s < 128 ==> Shr(hi, s - 64) < TWO64 && (hi * TWO64 + lo) / Exp(2, s) == Shr(hi, s - 64)
    ensures s >= 128 ==> (hi * TWO64 + lo) / Exp(2, s) == 0
  {
    var k, v := 64, hi * TWO64 + lo;
    Power64(k);
    ExpPositive(2, s);
    ExpPositive(2, s - k);
    ExpAdd(2, k, s - k);
    DivModUnique(v, TWO64, hi, lo);
    DivDiv(v, TWO64, Exp(2, s - k));
    var q, r := DivMod(hi, Exp(2, s - k));
    if s >= 128 {
      ExpMonotone(2, k, s - k);
      DivModUnique(hi, Exp(2, s - k), 0, hi);
    } else {
      MulBound(1, q, Exp(2, s - k), q);
    }
  }

  lemma ShiftRightJoin(hi: U64, lo: U64, s: nat)
    requires 0 < s < 64
    ensures Exp(2, s) > 0 && Exp(2, 64 - s) > 0
    ensures Shl64(hi, 64 - s) % Exp(2, 64 - s) == 0 && Shr(lo, s) < Exp(2, 64 - s)
    ensures Shl64(hi, 64 - s) + Shr(lo, s) < TWO64 && Shr(hi, s) < TWO64
    ensures Shr(hi, s) * TWO64 + (Shl64(hi, 64 - s) + Shr(lo, s)) == (hi * TWO64 + lo) / Exp(2, s)
  {
    Split64(hi, 64 - s);
    Split64(lo, 64 - s);
    hide Exp;
    var p, q := Exp(2, s), Exp(2, 64 - s);
    var h, hl := DivMod(hi, p);
    var l, ll := DivMod(lo, p);
    ShiftRightValue(hi, lo, p, q, h, hl, l, ll);
    MulMod(hl, q);
  }

  /** Shifting left by one and then by the rest is one shift. */
  lemma ShlTwice(x: U64, t: nat)
    requires t < 63
    ensures Shl64(Shl64(x, 1), t) == Shl64(x, t + 1)
  {
    var p := Exp(2, t);
    assert Exp(2, 1) == 2;
    var c, y := DivMod(2 * x, TWO64);
    ShlTwiceIdentity(x, c, y, p);
    ModShift(y * p, TWO64, c * p);
  }

  lemma ShlTwiceIdentity(x: nat, c: nat, y: nat, p: nat)
    requires 2 * x == TWO64 * c + y
    ensures x * (2 * p) == TWO64 * (c * p) + y * p
  {
    assert (2 * x) * p == (TWO64 * c + y) * p;
  }

  /** A shift by one and then by 63 leaves nothing. */
  lemma ShlClears(x: U64, t: nat)
    requires t == 63
    ensures Shl64(Shl64(x, 1), t) == 0
  {
    Power64(t + 1);
    assert Exp(2, 1) == 2;
    var y := Shl64(x, 1);
    assert y == 2 * (y / 2);
    assert y * Exp(2, t) == TWO64 * (y / 2);
    DivModUnique(y * Exp(2, t), TWO64, y / 2, 0);
  }

  lemma ShiftRightValue(xh: nat, xl: nat, p: nat, q: nat, h: nat, hl: nat, l: nat, ll: nat)
    requires p > 0 && q > 0 && q * p == TWO64
    requires xh == p * h + hl && hl < p && xl == p * l + ll && ll < p
    ensures h * TWO64 + (hl * q + l) == (xh * TWO64 + xl) / p
  {
    assert xh * TWO64 + xl == p * (h * TWO64 + (hl * q + l)) + ll by {
      assert (p * h + hl) * TWO64 == p * (h * TWO64) + hl * (p * q);
      assert hl * (p * q) == p * (hl * q);
    }
    DivModUnique(xh * TWO64 + xl, p, h * TWO64 + (hl * q + l), ll);
  }

  // ----- Multiplication -----

  /** Full multiplication through the compiler's 128-bit integer. */
  function Umul(x: U64, y: U64): (r: U128)
    ensures Val(r) == x * y
  {
    MulBound(x, y, TWO64 - 1, TWO64 - 1);
    OfNat(x * y)
  }

  /** Portable full multiplication of two 64-bit words from four 32-bit products. */
  function ConstexprUmul(x: U64, y: U64): (r: U128)
    ensures Val(r) == x * y
  {
    var xl, xh := Low32(x), High32(x);
    var yl, yh := Low32(y), High32(y);
    UmulProducts(x, y, xh, xl, yh, yl);
    UmulSum(Wrap(xl * yl), Wrap(xh * yl), Wrap(xl * yh), Wrap(xh * yh))
  }

  /** The portable and the compiler's multiplication agree, high and low word. */
  lemma ConstexprUmulIsUmul(x: U64, y: U64)
    ensures ConstexprUmul(x, y) == Umul(x, y)
  {
    ValInjective(ConstexprUmul(x, y), Umul(x, y));
  }

  /** The second half of the multiplication: adding up the four partial products. */
  function UmulSum(t0: U64, t1: U64, t2: U64, t3: U64): (r: U128)
    requires t0 <= 0xffff_fffe_0000_0001 && t1 <= 0xffff_fffe_0000_0001 && t2 <= 0xffff_fffe_0000_0001
    requires t3 * TWO64 + (t1 + t2) * 0x1_0000_0000 + t0 < TWO128
    ensures Val(r) == t3 * TWO64 + (t1 + t2) * 0x1_0000_0000 + t0
  {
    var u1 := Wrap(t1 + High32(t0));
    WrapSmall(t1 + High32(t0));
    var u2 := Wrap(t2 + Low32(u1));
    WrapSmall(t2 + Low32(u1));
    CarryMiddle(t0, t1, t2, t3, u1, u2);
    HighHalfClear(u2);
    var lo := Join(Wrap(u2 * 0x1_0000_0000), Low32(t0), 32);
    HighWordFits(t3 + High32(u2) + High32(u1), lo);
    var hi := Wrap(t3 + High32(u2) + High32(u1));
    U128(hi, lo)
  }

  lemma HighHalfClear(u: nat)
    ensures Exp(2, 32) == 0x1_0000_0000
    ensures Wrap(u * 0x1_0000_0000) == Low32(u) * 0x1_0000_0000
    ensures Wrap(u * 0x1_0000_0000) % Exp(2, 32) == 0
  {
    Power32(32);
  }

  lemma WrapSmall(x: nat)
    requires x < TWO64
    ensures Wrap(x) == x
  {
  }

  lemma HighWordFits(hi: nat, lo: nat)
    requires hi * TWO64 + lo < TWO128
    ensures hi < TWO64 && Wrap(hi) == hi
  {
  }

  /** The carries of the two middle products. */
  lemma CarryMiddle(t0: nat, t1: nat, t2: nat, t3: nat, u1: nat, u2: nat)
    requires u1 == t1 + High32(t0) && u2 == t2 + Low32(u1)
    ensures (t3 + High32(u2) + High32(u1)) * TWO64 + (Low32(u2) * 0x1_0000_0000 + Low32(t0))
            == t3 * TWO64 + (t1 + t2) * 0x1_0000_0000 + t0
  {
  }

  lemma UmulProducts(x: U64, y: U64, xh: nat, xl: nat, yh: nat, yl: nat)
    requires xl < 0x1_0000_0000 && xh < 0x1_0000_0000 && yl < 0x1_0000_0000 && yh < 0x1_0000_0000
    requires x == xh * 0x1_0000_0000 + xl && y == yh * 0x1_0000_0000 + yl
    ensures
      var t0, t1, t2, t3 := Wrap(xl * yl), Wrap(xh * yl), Wrap(xl * yh), Wrap(xh * yh);
      && t0 <= 0xffff_fffe_0000_0001 && t1 <= 0xffff_fffe_0000_0001 && t2 <= 0xffff_fffe_0000_0001
      && t3 * TWO64 + (t1 + t2) * 0x1_0000_0000 + t0 == x * y < TWO128
  {
    Product32(xl, yl);
    Product32(xh, yl);
    Product32(xl, yh);
    Product32(xh, yh);
    Expand32(x, y, xh, xl, yh, yl);
    MulBound(x, y, TWO64 - 1, TWO64 - 1);
  }

  lemma Product32(a: nat, b: nat)
    requires a < 0x1_0000_0000 && b < 0x1_0000_0000
    ensures 0 <= a * b <= 0xffff_fffe_0000_0001 && Wrap(a * b) == a * b
  {
    MulBound(a, b, 0xffff_ffff, 0xffff_ffff);
    var p := a * b;
    WrapSmall(p);
  }

  lemma MulBound(a: nat, b: nat, c: nat, d: nat)
    requires a <= c && b <= d
    ensures 0 <= a * b <= c * d
  {
    MulLe(a, b, d);
    MulLe(d, a, c);
  }

  lemma Expand32(x: nat, y: nat, xh: nat, xl: nat, yh: nat, yl: nat)
    requires x == xh * 0x1_0000_0000 + xl && y == yh * 0x1_0000_0000 + yl
    ensures x * y == (xh * yh) * TWO64 + (xh * yl + xl * yh) * 0x1_0000_0000 + xl * yl
  {
  }
}
