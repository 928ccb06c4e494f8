/** Machine integers, powers, shifts, bit operations and big-endian byte strings.
    Everything is stated over `nat`; wrap-around is written out with `%`. */
module Words {

  const TWO64: nat := 0x1_0000_0000_0000_0000
  const TWO128: nat := 0x1_0000_0000_0000_0000_0000_0000_0000_0000
  const TWO160: nat := 0x1_0000_0000_0000_0000_0000_0000_0000_0000_0000_0000
  const TWO255: nat := 0x8000_0000_0000_0000_0000_0000_0000_0000_0000_0000_0000_0000_0000_0000_0000_0000
  const TWO256: nat := 0x1_0000_0000_0000_0000_0000_0000_0000_0000_0000_0000_0000_0000_0000_0000_0000_0000

  /** The largest size of a `std::vector<uint8_t>` (PTRDIFF_MAX). */
  const MAX_VECTOR: nat := 0x7fff_ffff_ffff_ffff

  type Byte = x: nat | x < 0x100
  type U64 = x: nat | x < TWO64
  type Word = x: nat | x < TWO256
  type Vector = bs: seq<Byte> | |bs| <= MAX_VECTOR witness []

  // ----- Powers -----

  function Exp(b: nat, n: nat): nat {
    if n == 0 then 1 else b * Exp(b, n - 1)
  }

  lemma {:induction false} ExpPositive(b: nat, n: nat)
    requires b > 0
    ensures Exp(b, n) > 0
  {
    if n > 0 {
      ExpPositive(b, n - 1);
      assert b * Exp(b, n - 1) > 0;
    }
  }

  lemma {:induction false} ExpAdd(b: nat, m: nat, n: nat)
    ensures Exp(b, m + n) == Exp(b, m) * Exp(b, n)
  {
    if m > 0 {
      ExpAdd(b, m - 1, n);
      assert b * (Exp(b, m - 1) * Exp(b, n)) == (b * Exp(b, m - 1)) * Exp(b, n);
    }
  }

  lemma {:induction false} ExpMul(b: nat, m: nat, n: nat)
    ensures Exp(b, m * n) == Exp(Exp(b, m), n)
  {
    if n == 0 {
      assert m * n == 0;
    } else {
      ExpMul(b, m, n - 1);
      ExpAdd(b, m, m * (n - 1));
      assert m * n == m + m * (n - 1);
    }
  }

  lemma {:induction false} ExpMonotone(b: nat, m: nat, n: nat)
    requires b > 0 && m <= n
    ensures Exp(b, m) <= Exp(b, n)
  {
    if m < n {
      ExpMonotone(b, m, n - 1);
      ExpPositive(b, n - 1);
      MulAtLeast(Exp(b, n - 1), b);
    }
  }

  /** Squaring doubles the exponent; used to evaluate the big powers without unfolding them. */
  lemma ExpDouble(b: nat, n: nat, v: nat)
    requires Exp(b, n) == v
    ensures Exp(b, 2 * n) == v * v
  {
    ExpAdd(b, n, n);
    assert 2 * n == n + n;
  }

  lemma Power64(n: nat)
    requires n == 64
    ensures Exp(2, n) == TWO64
    ensures Exp(2, n - 1) == 0x8000_0000_0000_0000
  {
    var h := n / 2;
    assert Exp(2, 4) == 0x10;
    ExpDouble(2, 4, 0x10);
    ExpDouble(2, 2 * 4, 0x100);
    ExpDouble(2, 2 * (2 * 4), 0x1_0000);
    assert h == 2 * (2 * (2 * 4));
    ExpDouble(2, h, 0x1_0000_0000);
    assert Exp(2, n) == 2 * Exp(2, n - 1);
  }

  lemma Power256(n: nat)
    requires n == 256
    ensures Exp(2, n) == TWO256
    ensures Exp(2, n - 1) == TWO255
  {
    var a := n / 4;
    Power64(a);
    ExpDouble(2, a, TWO64);
    ExpDouble(2, 2 * a, TWO128);
    assert n == 2 * (2 * a);
    assert Exp(2, n) == 2 * Exp(2, n - 1);
  }

  lemma Power256Bytes(n: nat)
    requires n == 32
    ensures Exp(0x100, n) == TWO256
    ensures Exp(0x100, n / 4) == TWO64
  {
    var a := n / 4;
    assert Exp(0x100, 2) == 0x1_0000;
    ExpDouble(0x100, 2, 0x1_0000);
    assert a == 2 * (2 * 2);
    ExpDouble(0x100, 2 * 2, 0x1_0000_0000);
    ExpDouble(0x100, a, TWO64);
    ExpDouble(0x100, 2 * a, TWO128);
    assert n == 2 * (2 * a);
  }

  // ----- Shifts -----

  /** `x << s` on 64-bit words, for shifts the hardware defines. */
  function Shl64(x: U64, s: nat): (r: U64)
    requires s < 64
  {
    (x * Exp(2, s)) % TWO64
  }

  /** `x >> s`. */
  function Shr(x: nat, s: nat): nat {
    ExpPositive(2, s);
    x / Exp(2, s)
  }

  // ----- Bit operations, bit by bit -----

  function And(x: nat, y: nat): nat
    decreases x
  {
    if x == 0 then 0 else (if x % 2 == 1 && y % 2 == 1 then 1 else 0) + 2 * And(x / 2, y / 2)
  }

  function Or(x: nat, y: nat): nat
    decreases x + y
  {
    if x == 0 && y == 0 then 0 else (if x % 2 == 1 || y % 2 == 1 then 1 else 0) + 2 * Or(x / 2, y / 2)
  }

  function Xor(x: nat, y: nat): nat
    decreases x + y
  {
    if x == 0 && y == 0 then 0 else (if x % 2 != y % 2 then 1 else 0) + 2 * Xor(x / 2, y / 2)
  }

  lemma {:induction false} AndBound(x: nat, y: nat)
    ensures And(x, y) <= x
  {
    if x > 0 { AndBound(x / 2, y / 2); }
  }

  lemma {:induction false} OrBound(x: nat, y: nat, k: nat)
    requires x < Exp(2, k) && y < Exp(2, k)
    ensures Or(x, y) < Exp(2, k)
  {
    if k > 0 { OrBound(x / 2, y / 2, k - 1); }
  }

  lemma {:induction false} XorBound(x: nat, y: nat, k: nat)
    requires x < Exp(2, k) && y < Exp(2, k)
    ensures Xor(x, y) < Exp(2, k)
  {
    if k > 0 { XorBound(x / 2, y / 2, k - 1); }
  }

  /** Masking with `2^k - 1` keeps the low `k` bits. */
  lemma {:induction false} AndLowMask(x: nat, k: nat)
    ensures Exp(2, k) > 0
    ensures And(x, Exp(2, k) - 1) == x % Exp(2, k)
  {
    ExpPositive(2, k);
    if k == 0 {
      AndZero(x);
    } else {
      AndLowMask(x / 2, k - 1);
      var p := Exp(2, k - 1);
      ExpPositive(2, k - 1);
      assert Exp(2, k) == 2 * p;
      assert (2 * p - 1) / 2 == p - 1;
      HalfMod(x, p);
    }
  }

  lemma {:induction false} AndZero(x: nat)
    ensures And(x, 0) == 0
  {
    if x > 0 { AndZero(x / 2); }
  }

  lemma HalfMod(x: nat, p: nat)
    requires p > 0
    ensures x % (2 * p) == x % 2 + 2 * ((x / 2) % p)
  {
    var q, r := (x / 2) / p, (x / 2) % p;
    assert x / 2 == q * p + r;
    assert x == (2 * p) * q + (x % 2 + 2 * r) by { assert 2 * (q * p) == (2 * p) * q; }
    DivModUnique(x, 2 * p, q, x % 2 + 2 * r);
  }

  lemma DivModUnique(x: nat, d: nat, q: nat, r: nat)
    requires d > 0 && r < d && x == d * q + r
    ensures x / d == q && x % d == r
  {
    var q' := x / d;
    assert x == d * q' + x % d;
    assert d * (q' - q) == r - x % d;
    assert q' - q <= 0 by { if q' - q >= 1 { MulAtLeast(d, q' - q); } }
    assert d * (q - q') == x % d - r;
    assert q - q' <= 0 by { if q - q' >= 1 { MulAtLeast(d, q - q'); } }
  }

  lemma MulAtLeast(d: int, k: int)
    requires d > 0 && k >= 1
    ensures d * k >= d
  {
  }

  /** Or-ing a multiple of `2^k` with a value below `2^k` adds them. */
  lemma {:induction false} OrDisjoint(a: nat, b: nat, k: nat)
    requires b < Exp(2, k)
    ensures Or(a * Exp(2, k), b) == a * Exp(2, k) + b
  {
    if k == 0 {
      assert a * Exp(2, k) == a;
      OrZero(a);
    } else {
      var x := a * Exp(2, k);
      assert x == 2 * (a * Exp(2, k - 1)) by {
        assert Exp(2, k) == 2 * Exp(2, k - 1);
      }
      assert x / 2 == a * Exp(2, k - 1) && x % 2 == 0;
      OrDisjoint(a, b / 2, k - 1);
    }
  }

  lemma {:induction false} OrZero(x: nat)
    ensures Or(x, 0) == x
  {
    if x > 0 { OrZero(x / 2); }
  }

  function Halved(x: nat, s: nat): nat {
    if s == 0 then x else Halved(x / 2, s - 1)
  }

  function Doubled(x: nat, s: nat): nat {
    if s == 0 then x else 2 * Doubled(x, s - 1)
  }

  lemma {:induction false} HalvedIsDiv(x: nat, s: nat)
    ensures Exp(2, s) > 0 && Halved(x, s) == x / Exp(2, s)
  {
    ExpPositive(2, s);
    if s > 0 {
      HalvedIsDiv(x / 2, s - 1);
      DivDiv(x, 2, Exp(2, s - 1));
    }
  }

  lemma {:induction false} DoubledIsMul(x: nat, s: nat)
    ensures Doubled(x, s) == x * Exp(2, s)
  {
    if s > 0 {
      DoubledIsMul(x, s - 1);
      assert 2 * (x * Exp(2, s - 1)) == x * (2 * Exp(2, s - 1));
    }
  }

  lemma {:induction false} AndDoubled(x: nat, m: nat, s: nat)
    ensures And(x, Doubled(m, s)) == Doubled(And(Halved(x, s), m), s)
  {
    if s > 0 {
      AndEven(x, Doubled(m, s - 1));
      AndDoubled(x / 2, m, s - 1);
    }
  }

  /** A mask shifted left by `s` sees only the bits of `x` from `s` upwards. */
  lemma AndShifted(x: nat, m: nat, s: nat)
    ensures Exp(2, s) > 0
    ensures And(x, m * Exp(2, s)) == And(x / Exp(2, s), m) * Exp(2, s)
  {
    HalvedIsDiv(x, s);
    DoubledIsMul(m, s);
    DoubledIsMul(And(Halved(x, s), m), s);
    AndDoubled(x, m, s);
  }

  lemma AndEven(x: nat, y: nat)
    ensures And(x, 2 * y) == 2 * And(x / 2, y)
  {
    assert (2 * y) % 2 == 0 && (2 * y) / 2 == y;
  }

  lemma DivDiv(x: nat, a: nat, b: nat)
    requires a > 0 && b > 0
    ensures a * b > 0 && (x / a) / b == x / (a * b)
  {
    var q, r := DivMod(x, a);
    var q2, r2 := DivMod(q, b);
    DivDivIdentity(x, a, b, q, r, q2, r2);
    DivModUnique(x, a * b, q2, a * r2 + r);
  }

  lemma ModShift(x: int, m: nat, k: int)
    requires m > 0
    ensures (m * k + x) % m == x % m
  {
    var q, r := x / m, x % m;
    var q', r' := (m * k + x) / m, (m * k + x) % m;
    assert m * (q' - k - q) == r - r';
    if q' - k - q >= 1 { MulAtLeast(m, q' - k - q); }
    if k + q - q' >= 1 { MulAtLeast(m, k + q - q'); }
  }

  lemma DivMod(x: nat, d: nat) returns (q: nat, r: nat)
    requires d > 0
    ensures q == x / d && r == x % d && r < d && x == d * q + r
  {
    q, r := x / d, x % d;
  }

  lemma DivDivIdentity(x: nat, a: nat, b: nat, q: nat, r: nat, q2: nat, r2: nat)
    requires a > 0 && r < a && r2 < b && x == a * q + r && q == b * q2 + r2
    ensures a * b > 0 && a * r2 + r < a * b
    ensures x == (a * b) * q2 + (a * r2 + r)
  {
    DivDivRest(a, b, r, r2);
    assert a * (b * q2 + r2) == (a * b) * q2 + a * r2;
  }

  lemma DivDivRest(a: nat, b: nat, r: nat, r2: nat)
    requires a > 0 && r < a && r2 < b
    ensures a * r2 + r < a * b
  {
    var k := b - r2 - 1;
    assert a * b == a * r2 + a + a * k;
  }

  // ----- The shapes of `|` and `&` that the arithmetic code uses -----

  /** `high | low` where `high` has its low `s` bits clear and `low` fits in them.
      The precondition is the disjointness that makes `|` an addition (see JoinIsOr). */
  function Join(high: nat, low: nat, s: nat): nat
    requires low < Exp(2, s) && high % Exp(2, s) == 0
  {
    high + low
  }

  lemma JoinIsOr(high: nat, low: nat, s: nat)
    requires low < Exp(2, s) && high % Exp(2, s) == 0
    ensures Join(high, low, s) == Or(high, low)
  {
    var a, _ := DivMod(high, Exp(2, s));
    assert high == a * Exp(2, s);
    OrDisjoint(a, low, s);
  }

  /** `x & 0xffffffff`. */
  function Low32(x: nat): nat {
    x % 0x1_0000_0000
  }

  /** `x >> 32`. */
  function High32(x: nat): nat {
    x / 0x1_0000_0000
  }

  lemma Low32IsAnd(x: nat)
    ensures Low32(x) == And(x, 0xffff_ffff)
  {
    Power32(32);
    AndLowMask(x, 32);
  }

  lemma High32IsShr(x: nat)
    ensures High32(x) == Shr(x, 32)
  {
    Power32(32);
  }

  lemma Power32(n: nat)
    requires n == 32
    ensures Exp(2, n) == 0x1_0000_0000
  {
    assert Exp(2, 4) == 0x10;
    ExpDouble(2, 4, 0x10);
    ExpDouble(2, 8, 0x100);
    ExpDouble(2, 16, 0x1_0000);
  }

  // ----- Big-endian byte strings -----

  function FromBE(bs: seq<Byte>): nat {
    if bs == [] then 0 else FromBE(bs[..|bs| - 1]) * 0x100 + bs[|bs| - 1]
  }

  function ToBE(v: nat, n: nat): (bs: seq<Byte>)
    ensures |bs| == n
  {
    if n == 0 then [] else ToBE(v / 0x100, n - 1) + [v % 0x100]
  }

  function Zeros(n: nat): (bs: seq<Byte>)
    ensures |bs| == n && forall i :: 0 <= i < n ==> bs[i] == 0
  {
    seq(n, _ => 0)
  }

  lemma {:induction false} FromBEBound(bs: seq<Byte>)
    ensures FromBE(bs) < Exp(0x100, |bs|)
  {
    if bs != [] { FromBEBound(bs[..|bs| - 1]); }
  }

  lemma {:induction false} FromToBE(v: nat, n: nat)
    requires v < Exp(0x100, n)
    ensures FromBE(ToBE(v, n)) == v
  {
    if n > 0 {
      assert ToBE(v, n)[..n - 1] == ToBE(v / 0x100, n - 1);
      FromToBE(v / 0x100, n - 1);
    }
  }

  lemma {:induction false} FromBEConcat(a: seq<Byte>, b: seq<Byte>)
    ensures FromBE(a + b) == FromBE(a) * Exp(0x100, |b|) + FromBE(b)
  {
    if b == [] {
      assert a + b == a;
    } else {
      var b0, l := b[..|b| - 1], b[|b| - 1];
      FromBEConcat(a, b0);
      assert (a + b)[..|a + b| - 1] == a + b0;
      assert FromBE(a) * Exp(0x100, |b0|) * 0x100 == FromBE(a) * Exp(0x100, |b|) by {
        assert Exp(0x100, |b|) == 0x100 * Exp(0x100, |b0|);
      }
    }
  }

  lemma {:induction false} FromBEZeros(n: nat)
    ensures FromBE(Zeros(n)) == 0
  {
    if n > 0 {
      assert Zeros(n)[..n - 1] == Zeros(n - 1);
      FromBEZeros(n - 1);
    }
  }

  /** Leading zero bytes do not change the number. */
  lemma FromBELeadingZeros(n: nat, bs: seq<Byte>)
    ensures FromBE(Zeros(n) + bs) == FromBE(bs)
  {
    FromBEConcat(Zeros(n), bs);
    FromBEZeros(n);
  }

  /** Byte `i` of the big-endian form is the digit of its place. */
  lemma {:induction false} Digit(v: nat, n: nat, i: nat)
    requires i < n
    ensures Exp(0x100, n - 1 - i) > 0
    ensures ToBE(v, n)[i] == (v / Exp(0x100, n - 1 - i)) % 0x100
  {
    ExpPositive(0x100, n - 1 - i);
    if i < n - 1 {
      Digit(v / 0x100, n - 1, i);
      DivDiv(v, 0x100, Exp(0x100, n - 2 - i));
    }
  }

  // ----- Binary digits -----

  /** Binary digit `k`. */
  function BitOf(x: nat, k: nat): (b: nat)
    ensures b <= 1
  {
    ExpPositive(2, k);
    x / Exp(2, k) % 2
  }

  lemma BitOfHalf(x: nat, k: nat)
    ensures BitOf(x, k + 1) == BitOf(x / 2, k)
  {
    ExpPositive(2, k);
    DivDiv(x, 2, Exp(2, k));
  }

  lemma {:induction false} ZeroBit(k: nat)
    ensures BitOf(0, k) == 0
  {
    if k > 0 { BitOfHalf(0, k - 1); ZeroBit(k - 1); }
  }

  lemma LowBit(x: nat)
    ensures BitOf(x, 0) == x % 2
  {
  }

  lemma {:induction false} AndBits(x: nat, y: nat, k: nat)
    ensures BitOf(And(x, y), k) == if BitOf(x, k) == 1 && BitOf(y, k) == 1 then 1 else 0
    decreases k
  {
    hide BitOf;
    LowBit(x);
    LowBit(y);
    LowBit(And(x, y));
    if x == 0 {
      ZeroBit(k);
    } else if k > 0 {
      BitOfHalf(x, k - 1);
      BitOfHalf(y, k - 1);
      BitOfHalf(And(x, y), k - 1);
      AndBits(x / 2, y / 2, k - 1);
    }
  }

  lemma {:induction false} OrBits(x: nat, y: nat, k: nat)
    ensures BitOf(Or(x, y), k) == if BitOf(x, k) == 1 || BitOf(y, k) == 1 then 1 else 0
    decreases k
  {
    hide BitOf;
    LowBit(x);
    LowBit(y);
    LowBit(Or(x, y));
    if x == 0 && y == 0 {
      ZeroBit(k);
    } else if k > 0 {
      BitOfHalf(x, k - 1);
      BitOfHalf(y, k - 1);
      BitOfHalf(Or(x, y), k - 1);
      OrBits(x / 2, y / 2, k - 1);
    }
  }

  lemma {:induction false} XorBits(x: nat, y: nat, k: nat)
    ensures BitOf(Xor(x, y), k) == if BitOf(x, k) != BitOf(y, k) then 1 else 0
    decreases k
  {
    hide BitOf;
    LowBit(x);
    LowBit(y);
    LowBit(Xor(x, y));
    if x == 0 && y == 0 {
      ZeroBit(k);
    } else if k > 0 {
      BitOfHalf(x, k - 1);
      BitOfHalf(y, k - 1);
      BitOfHalf(Xor(x, y), k - 1);
      XorBits(x / 2, y / 2, k - 1);
    }
  }
}
