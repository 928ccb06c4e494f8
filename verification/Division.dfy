/** 128-bit division: the 3-by-2 reciprocal, the two division steps that use the reciprocals,
    and the full unsigned and signed division built on them. */
module Division {
  import opened Words
  import opened UInt128
  import opened Reciprocal
  import opened Signed

  const TWO192: nat := 0x1_0000_0000_0000_0000_0000_0000_0000_0000_0000_0000_0000_0000

  // ----- The 3-by-2 reciprocal -----

  /** For every normalized pair the result is `floor((2^192 - 1) / d) - 2^64`.
      The body is split after its first correction, which brings in `d.lo`. */
  method Reciprocal3by2(d: U128) returns (v: U64)
    requires Normalized(d.hi)
    ensures v == (TWO192 - 1) / Val(d) - TWO64
  {
    var p;
    v, p := HighCorrection(d);
    var t := Umul(v, d.lo);
    ghost var D := Val(d);
    ghost var P := LowStart(v, d, D, p, t);
    WrapSum(p, t.hi);
    p := Wrap(p + t.hi);
    if p < t.hi {
      LowDown(v, D, P);
      v := Wrap(v - 1);
      P := P - D;
      if Ge(U128(p, t.lo), d) {
        LowDown(v, D, P);
        v := Wrap(v - 1);
        P := P - D;
      }
    }
    ReciprocalUnique(v, D, P);
  }

  method HighCorrection(d: U128) returns (v: U64, p: U64)
    requires Normalized(d.hi)
    ensures p == (TWO64 + v) * d.hi + d.lo - TWO128 + TWO64
    ensures p >= TWO64 - d.hi
  {
    v := Reciprocal2by1(d.hi);
    p := Wrap(d.hi * v);
    ghost var p0, v0 := p, v;
    HighStart(v, d, p);
    WrapSum(p, d.lo);
    p := Wrap(p + d.lo);
    if p < d.lo {
      WrapDifference(v, 1);
      v := Wrap(v - 1);
      if p >= d.hi {
        WrapDifference(v, 1);
        v := Wrap(v - 1);
        WrapDifference(p, d.hi);
        p := Wrap(p - d.hi);
      }
      WrapDifference(p, d.hi);
      p := Wrap(p - d.hi);
    }
    HighFinish(v0, d, p0, v, p);
  }

  lemma HighStart(v: U64, d: U128, p: U64)
    requires Normalized(d.hi) && v == (TWO128 - 1) / d.hi - TWO64 && p == Wrap(d.hi * v)
    ensures p == (TWO64 + v) * d.hi - TWO128 + TWO64 && p >= TWO64 - d.hi
    ensures p + d.lo >= TWO64 ==> v >= 1
    ensures p + d.lo - TWO64 >= d.hi ==> v >= 2
  {
    StartProduct(v, d.hi);
    assert v == 0 ==> p == TWO64 * d.hi - TWO128 + TWO64;
    assert v == 1 ==> p == (TWO64 + 1) * d.hi - TWO128 + TWO64;
  }

  lemma HighFinish(v0: int, d: U128, p0: int, v: int, p: int)
    requires p0 == (TWO64 + v0) * d.hi - TWO128 + TWO64 && 0 <= v0 - v <= 2
    requires p == p0 + d.lo - (if v == v0 then 0 else if v == v0 - 1 then d.hi else 2 * d.hi)
    ensures p == (TWO64 + v) * d.hi + d.lo - TWO128 + TWO64
  {
    StepDown(v0, d.hi);
    StepDown(v0 - 1, d.hi);
  }

  /** The running value of the second correction, `(2^64 + v) * d`. */
  lemma LowStart(v: U64, d: U128, D: nat, p: nat, t: U128) returns (P: nat)
    requires D == Val(d) && Val(t) == v * d.lo
    requires p == (TWO64 + v) * d.hi + d.lo - TWO128 + TWO64
    ensures P == (TWO64 + v) * D
    ensures P == TWO192 - TWO128 + TWO64 * (p + t.hi) + t.lo
    ensures t.hi <= TWO64 - 2
  {
    var S := p + TWO128 - TWO64;
    P := TWO64 * S + v * d.lo;
    FullProduct(v, d, S, P);
    HighOfProduct(v, d.lo, t);
  }

  lemma LowDown(v: U64, D: nat, P: int)
    requires D < TWO128 && P == (TWO64 + v) * D && P >= TWO192
    ensures Wrap(v - 1) == v - 1
    ensures P - D == (TWO64 + Wrap(v - 1)) * D
  {
    assert v >= 1;
    WrapSmall(v - 1);
    StepDown(v, D);
  }

  lemma StartProduct(v: nat, d: nat)
    requires Normalized(d) && v == (TWO128 - 1) / d - TWO64
    ensures v < TWO64
    ensures TWO128 - d <= (TWO64 + v) * d < TWO128
    ensures Wrap(d * v) == (TWO64 + v) * d + TWO64 - TWO128
  {
    var R, rest := DivMod(TWO128 - 1, d);
    StartProductBy(v, d, R, rest);
  }

  lemma StartProductBy(v: int, d: nat, R: nat, rest: nat)
    requires Normalized(d) && TWO128 - 1 == d * R + rest && rest < d && v == R - TWO64
    ensures 0 <= v < TWO64
    ensures TWO128 - d <= (TWO64 + v) * d < TWO128
    ensures Wrap(d * v) == (TWO64 + v) * d + TWO64 - TWO128
  {
    if R >= T65 { MulBound(T65, T63, R, d); }
    if R < TWO64 { MulBound(R, d, TWO64 - 1, TWO64 - 1); }
    Distribute(R, TWO64, d);
    var w := d * R - TWO128 + TWO64;
    assert d * v == TWO64 * (TWO64 - 1 - d) + w;
    ModShift(w, TWO64, TWO64 - 1 - d);
  }

  lemma StepDown(v: int, d: int)
    ensures (TWO64 + (v - 1)) * d == (TWO64 + v) * d - d
  {
  }

  lemma FullProduct(v: nat, d: U128, S: nat, P: nat)
    requires S == (TWO64 + v) * d.hi + d.lo && P == TWO64 * S + v * d.lo
    ensures P == (TWO64 + v) * Val(d)
  {
    assert (TWO64 + v) * (d.hi * TWO64) == TWO64 * ((TWO64 + v) * d.hi);
  }

  lemma HighOfProduct(x: U64, y: U64, t: U128)
    requires Val(t) == x * y
    ensures t.hi <= TWO64 - 2
  {
    MulBound(x, y, TWO64 - 1, TWO64 - 1);
  }

  lemma ReciprocalUnique(v: int, d: nat, P: int)
    requires d > 0 && P == (TWO64 + v) * d && 0 <= TWO64 + v && P < TWO192 <= P + d
    ensures v == (TWO192 - 1) / d - TWO64
  {
    DivModUnique(TWO192 - 1, d, TWO64 + v, TWO192 - 1 - P);
  }

  // ----- Dividing two words by one -----

  datatype DivResult<T> = DivResult(quot: T, rem: T)

  /** `u / d` for `u.hi < d`, one multiplication by the reciprocal and at most two corrections. */
  method Udivrem2by1(u: U128, d: U64, v: U64) returns (r: DivResult<U64>)
    requires Normalized(d) && u.hi < d && v == (TWO128 - 1) / d - TWO64
    ensures r.quot * d + r.rem == Val(u) && r.rem < d
  {
    var q, rem;
    ghost var R;
    q, rem, R := Estimate2by1(u, d, v);
    UpAndDown(q.hi);
    var qhi: U64 := Wrap(q.hi + 1);
    ghost var step := 0;
    if rem > q.lo {
      qhi := Wrap((qhi as int) - 1);
      WrapSum(rem, d);
      rem := Wrap(rem + d);
      step := -1;
    }
    if rem >= d {
      qhi := Wrap((qhi as int) + 1);
      WrapDifference(rem, d);
      rem := Wrap(rem - d);
      step := step + 1;
    }
    FinishQuotient(Val(u), d, q.hi + 1, R, step, rem, qhi);
    return DivResult(qhi, rem);
  }

  /** The straight-line part before the corrections, and what the first comparison decides. */
  method Estimate2by1(u: U128, d: U64, v: U64) returns (q: U128, rem: U64, ghost R: int)
    requires Normalized(d) && u.hi < d && v == (TWO128 - 1) / d - TWO64
    ensures R == Val(u) - Times(q.hi + 1, d)
    ensures rem == (if R < 0 then R + TWO64 else R) && 0 - d <= R < TWO64
    ensures q.lo - TWO64 < R && (R < TWO64 - d || R < q.lo)
  {
    R := TwoByOneEstimate(u, d, v);
    q := Umul(v, u.hi);
    q := Add(q, u);
    rem := Wrap(u.lo - Wrap(q.hi + 1) * d);
  }

  /** A product as repeated addition: the methods carry it in this form, which keeps
      their proofs linear. */
  ghost function Times(n: nat, d: int): int {
    if n == 0 then 0 else Times(n - 1, d) + d
  }

  lemma {:induction false} TimesIsProduct(n: nat, d: int)
    ensures Times(n, d) == n * d
  {
    if n > 0 {
      TimesIsProduct(n - 1, d);
      assert n * d == (n - 1) * d + d;
    }
  }

  /** The corrected quotient fits in a word, so it was not wrapped, and divides `u`. */
  lemma FinishQuotient(u: nat, d: nat, Q0: nat, R0: int, step: int, rem: int, Q: int)
    requires d > 0 && u < d * TWO64 && R0 == u - Times(Q0, d) && 0 <= rem < d
    requires -1 <= step <= 1 && rem == (if step == -1 then R0 + d else if step == 0 then R0 else R0 - d)
    requires Q0 + step < TWO64 ==> Q == Q0 + step
    ensures Q * d + rem == u
  {
    var Q1 := Q0 + step;
    TimesIsProduct(Q0, d);
    assert Q1 * d + rem == u by { assert (Q0 + step) * d == Q0 * d + step * d; }
    QuotientFits(u, d, Q1, rem, TWO64);
  }

  /** The remainder left by the estimate, and the bounds that make two corrections enough. */
  lemma TwoByOneEstimate(u: U128, d: U64, v: U64) returns (R: int)
    requires Normalized(d) && u.hi < d && v == (TWO128 - 1) / d - TWO64
    ensures
      var q := Add(Umul(v, u.hi), u);
      && R == Val(u) - Times(q.hi + 1, d)
      && 0 - d <= R && q.lo - TWO64 < R && (R < TWO64 - d || R < q.lo)
      && Wrap(u.lo - Wrap(q.hi + 1) * d) == (if R < 0 then R + TWO64 else R)
  {
    StartProduct(v, d);
    var k := TWO128 - (TWO64 + v) * d;
    EstimateFits(u.hi, d, v);
    var q := Add(Umul(v, u.hi), u);
    R := Val(u) - (q.hi + 1) * d;
    RemainderIdentity(u.hi, u.lo, d, v, k, q.hi, q.lo, R);
    RemainderBounds(u.hi, u.lo, d, k, q.lo, R);
    WrappedRemainder(u.hi, u.lo, q.hi, d, R);
    TimesIsProduct(q.hi + 1, d);
  }

  /** The estimate never overflows two words. */
  lemma EstimateFits(u1: nat, d: nat, v: nat)
    requires u1 < d < TWO64 && (TWO64 + v) * d < TWO128
    ensures v * u1 + u1 * TWO64 + TWO64 <= TWO128
  {
    MulBound(TWO64 + v, u1, TWO64 + v, d - 1);
    assert v * u1 + u1 * TWO64 == (TWO64 + v) * u1;
    assert (TWO64 + v) * (d - 1) == (TWO64 + v) * d - (TWO64 + v);
  }

  lemma RemainderIdentity(u1: int, u0: int, d: int, v: int, k: int, q1: int, q0: int, R: int)
    requires k == TWO128 - (TWO64 + v) * d && R == u1 * TWO64 + u0 - (q1 + 1) * d
    requires q1 * TWO64 + q0 == v * u1 + u1 * TWO64 + u0
    ensures TWO64 * R == u1 * k + u0 * (TWO64 - d) + q0 * d - TWO64 * d
  {
    var w := (TWO64 + v) * d;
    assert TWO64 * ((q1 + 1) * d) == (q1 * TWO64) * d + TWO64 * d;
    assert (q1 * TWO64) * d == u1 * w + u0 * d - q0 * d by { RemainderExpand(u1, u0, d, v, q1 * TWO64, q0, w); }
    assert u1 * k == TWO128 * u1 - u1 * w by { assert k == TWO128 - w; }
  }

  lemma RemainderExpand(u1: int, u0: int, d: int, v: int, q: int, q0: int, w: int)
    requires q == v * u1 + u1 * TWO64 + u0 - q0 && w == (TWO64 + v) * d
    ensures q * d == u1 * w + u0 * d - q0 * d
  {
    assert (v * u1 + u1 * TWO64) * d == u1 * w;
  }

  lemma RemainderBounds(u1: nat, u0: nat, d: nat, k: nat, q0: nat, R: int)
    requires Normalized(d) && u1 < d && u0 < TWO64 && 1 <= k <= d && q0 < TWO64
    requires TWO64 * R == u1 * k + u0 * (TWO64 - d) + q0 * d - TWO64 * d
    ensures 0 - d <= R && q0 - TWO64 < R && (R < TWO64 - d || R < q0)
  {
    MulBound(u1, k, d - 1, d);
    MulBound(u0, TWO64 - d, TWO64 - 1, TWO64 - d);
    MulBound(q0, d, q0, d);
    BelowMax(q0, d, R);
    assert (TWO64 - d) * (TWO64 - q0) > 0 by { PositiveProduct(TWO64 - d, TWO64 - q0); }
    assert (TWO64 - d) * (TWO64 - q0) == TWO128 - d * TWO64 - q0 * TWO64 + q0 * d;
  }

  /** A weighted mean of two numbers is below one of them. */
  lemma BelowMax(q0: nat, d: nat, R: int)
    requires d < TWO64
    ensures (d - 1) * d + (TWO64 - 1) * (TWO64 - d) + q0 * d - TWO64 * d < TWO64 * (TWO64 - d)
            || q0 >= TWO64 - d
    ensures q0 >= TWO64 - d ==>
              (d - 1) * d + (TWO64 - 1) * (TWO64 - d) + q0 * d - TWO64 * d < TWO64 * q0
  {
    var g := TWO64 - d;
    assert (d - 1) * d + (TWO64 - 1) * g - TWO64 * d == g * g - d - g by {
      assert d == TWO64 - g;
      assert (TWO64 - g - 1) * (TWO64 - g) == TWO128 - 2 * TWO64 * g + g * g - TWO64 + g;
    }
    if q0 < g {
      MulBound(q0, d, g, d);
      assert g * g + g * d == TWO64 * g;
    } else {
      MulBound(g, g, g, q0);
      assert g * q0 + q0 * d == TWO64 * q0;
    }
  }

  lemma WrappedRemainder(u1: nat, u0: nat, q1: nat, d: nat, R: int)
    requires u0 < TWO64 && q1 < TWO64 && d < TWO64 && R == u1 * TWO64 + u0 - (q1 + 1) * d
    requires 0 - TWO64 <= R < TWO64
    ensures Wrap(u0 - Wrap(q1 + 1) * d) == if R < 0 then R + TWO64 else R
  {
    WrapSum(q1, 1);
    if q1 + 1 < TWO64 {
      WrapShifted(u0 - (q1 + 1) * d, u1, R);
    } else {
      WrapShifted(u0, u1 - d, R);
    }
  }

  /** Numbers that differ by whole words wrap to the same word. */
  lemma WrapShifted(x: int, n: int, R: int)
    requires R == x + TWO64 * n && 0 - TWO64 <= R < TWO64
    ensures Wrap(x) == if R < 0 then R + TWO64 else R
  {
    ModShift(x, TWO64, n);
  }

  lemma QuotientFits(u: nat, d: nat, Q: int, R: int, bound: nat)
    requires d > 0 && u < d * bound && R == u - Q * d && 0 <= R < d
    ensures 0 <= Q < bound
  {
    if Q < 0 { assert Q * d <= -1 * d by { MulBound(1, d, -Q, d); assert Q * d == -((-Q) * d); } }
    if Q >= bound { MulBound(bound, d, Q, d); }
  }

  // ----- Dividing three words by two -----

  /** `(u2, u1, u0) / d` for `(u2, u1) < d`, again with at most two corrections. */
  method Udivrem3by2(u2: U64, u1: U64, u0: U64, d: U128, v: U64) returns (quot: U64, rem: U128)
    requires Normalized(d.hi) && Val(U128(u2, u1)) < Val(d) && v == (TWO192 - 1) / Val(d) - TWO64
    ensures quot * Val(d) + Val(rem) == Val(U128(u2, u1)) * TWO64 + u0 && Val(rem) < Val(d)
  {
    hide Val, Add, Sub, Lt, Times;
    var q, r;
    ghost var R;
    q, r, R := Estimate3by2(u2, u1, u0, d, v);
    UpAndDown(q.hi);
    var r1 := r.hi;
    var qhi: U64 := Wrap(q.hi + 1);
    ghost var step := 0;
    if r1 >= q.lo {
      qhi := Wrap((qhi as int) - 1);
      r := Add(r, d);
      step := -1;
    }
    if Ge(r, d) {
      qhi := Wrap((qhi as int) + 1);
      r := Sub(r, d);
      step := step + 1;
    }
    FinishQuotient(Val(U128(u2, u1)) * TWO64 + u0, Val(d), q.hi + 1, R, step, Val(r), qhi);
    return qhi, r;
  }

  /** Decrementing a wrapped increment restores it. */
  lemma UpAndDown(q: U64)
    ensures Wrap(Wrap(q + 1) - 1) == q
    ensures q + 1 < TWO64 ==> Wrap(q + 1) == q + 1
    ensures q + 2 < TWO64 ==> Wrap(Wrap(q + 1) + 1) == q + 2
  {
  }

  /** The straight-line part before the corrections: the estimate and the remainder it leaves. */
  method Estimate3by2(u2: U64, u1: U64, u0: U64, d: U128, v: U64) returns (q: U128, r: U128, ghost R: int)
    requires Normalized(d.hi) && Val(U128(u2, u1)) < Val(d) && v == (TWO192 - 1) / Val(d) - TWO64
    ensures R == Val(U128(u2, u1)) * TWO64 + u0 - Times(q.hi + 1, Val(d))
    ensures var rr := Val(r); var D := Val(d); r.hi >= q.lo ==>
      (if rr + D < TWO128 then rr + D else rr + D - TWO128) == R + D && 0 <= R + D < 2 * D
    ensures r.hi < q.lo ==> 0 <= R < 2 * Val(d) && Val(r) == R
  {
    R := ThreeByTwoEstimate(u2, u1, u0, d, v);
    q := Umul(v, u2);
    q := Add(q, U128(u2, u1));
    var r1 := Wrap(u1 - q.hi * d.hi);
    var t := Umul(d.lo, q.hi);
    r := Sub(Sub(U128(r1, u0), t), d);
    CorrectionRange(R, Val(d), q.lo, Val(r), r.hi);
    TimesIsProduct(q.hi + 1, Val(d));
  }

  /** What the first comparison decides: afterwards the remainder is between 0 and `2 * d`. */
  lemma CorrectionRange(R: int, D: nat, q0: nat, r: nat, rhi: nat)
    requires TWO128 <= 2 * D && D < TWO128 && 0 - D <= R < TWO128
    requires (q0 - TWO64) * TWO64 < R && (R < TWO128 - D || R < q0 * TWO64)
    requires r == (if R < 0 then R + TWO128 else R) && rhi * TWO64 <= r < rhi * TWO64 + TWO64
    ensures rhi >= q0 ==> (if r + D < TWO128 then r + D else r + D - TWO128) == R + D && 0 <= R + D < 2 * D
    ensures rhi < q0 ==> 0 <= R < 2 * D && r == R
  {
  }

  lemma ThreeByTwoEstimate(u2: U64, u1: U64, u0: U64, d: U128, v: U64) returns (R: int)
    requires Normalized(d.hi) && Val(U128(u2, u1)) < Val(d) && v == (TWO192 - 1) / Val(d) - TWO64
    ensures
      var q := Add(Umul(v, u2), U128(u2, u1));
      var t := Umul(d.lo, q.hi);
      && R == Val(U128(u2, u1)) * TWO64 + u0 - (q.hi + 1) * Val(d)
      && 0 - Val(d) <= R && (q.lo - TWO64) * TWO64 < R && (R < TWO128 - Val(d) || R < q.lo * TWO64)
      && Val(Sub(Sub(U128(Wrap(u1 - q.hi * d.hi), u0), t), d)) == (if R < 0 then R + TWO128 else R)
  {
    var D := Val(d);
    var Rv, rest := DivMod(TWO192 - 1, D);
    var k := TWO192 - (TWO64 + v) * D;
    assert k == rest + 1;
    Estimate3Fits(u2, u1, D, v, k);
    var q := Add(Umul(v, u2), U128(u2, u1));
    R := Val(U128(u2, u1)) * TWO64 + u0 - (q.hi + 1) * D;
    Remainder3Identity(u2, u1, u0, D, v, k, q.hi, q.lo, R);
    DeficitBound(D, v, k);
    Remainder3Bounds(u2, u1, u0, d.hi, d.lo, D, k, q.lo, R);
    WrappedRemainder3(u2, u1, u0, q.hi, d, R);
  }

  lemma DeficitBound(D: nat, v: nat, k: nat)
    requires k == TWO192 - (TWO64 + v) * D && D < TWO128
    ensures k <= (TWO128 - D) * TWO64
  {
    MulBound(TWO64, D, TWO64 + v, D);
  }

  lemma Estimate3Fits(u2: nat, u1: nat, D: nat, v: nat, k: int)
    requires u2 * TWO64 + u1 < D && (TWO64 + v) * D == TWO192 - k && k >= 1
    ensures v * u2 + u2 * TWO64 + u1 < TWO128
  {
    var U := u2 * TWO64 + u1;
    MulBound(TWO64 + v, U, TWO64 + v, D);
    MulBound(v, u1, v, u1);
    assert (TWO64 + v) * U == TWO64 * (v * u2 + u2 * TWO64 + u1) + v * u1;
  }

  lemma Remainder3Identity(u2: int, u1: int, u0: int, D: int, v: int, k: int, q1: int, q0: int, R: int)
    requires k == TWO192 - (TWO64 + v) * D && R == (u2 * TWO64 + u1) * TWO64 + u0 - (q1 + 1) * D
    requires q1 * TWO64 + q0 == v * u2 + u2 * TWO64 + u1
    ensures TWO64 * R == u2 * k + u1 * (TWO128 - D) + u0 * TWO64 + q0 * D - TWO64 * D
  {
    var w := (TWO64 + v) * D;
    assert TWO64 * ((q1 + 1) * D) == (q1 * TWO64) * D + TWO64 * D;
    assert (q1 * TWO64) * D == u2 * w + u1 * D - q0 * D by { Remainder3Expand(u2, u1, D, v, q1 * TWO64, q0, w); }
    assert u2 * k == TWO192 * u2 - u2 * w by { assert k == TWO192 - w; }
  }

  lemma Remainder3Expand(u2: int, u1: int, D: int, v: int, q: int, q0: int, w: int)
    requires q == v * u2 + u2 * TWO64 + u1 - q0 && w == (TWO64 + v) * D
    ensures q * D == u2 * w + u1 * D - q0 * D
  {
    assert (v * u2 + u2 * TWO64) * D == u2 * w;
  }

  lemma Remainder3Bounds(u2: nat, u1: nat, u0: nat, d1: nat, d0: nat, D: nat, k: nat, q0: nat, R: int)
    requires Normalized(d1) && d0 < TWO64 && D == d1 * TWO64 + d0 && u2 * TWO64 + u1 < D
    requires u1 < TWO64 && u0 < TWO64 && q0 < TWO64 && 1 <= k <= D && k <= (TWO128 - D) * TWO64
    requires TWO64 * R == u2 * k + u1 * (TWO128 - D) + u0 * TWO64 + q0 * D - TWO64 * D
    ensures 0 - D <= R && (q0 - TWO64) * TWO64 < R && (R < TWO128 - D || R < q0 * TWO64)
  {
    var g := TWO128 - D;
    var E := u2 * k + u1 * g + u0 * TWO64 - TWO64 * D;
    MulBound(u2, k, u2, k);
    MulBound(u1, g, u1, g);
    MulBound(q0, D, q0, D);
    PositiveProduct(TWO64 - q0, g);
    assert (TWO64 - q0) * g == TWO192 - TWO64 * D - q0 * TWO128 + q0 * D by { ExpandGap(q0, D, g); }
    EstimateExcess(u2, u1, u0, d1, d0, D, g, k, E);
    MeanBelowMax(g, D, q0, E, R);
  }

  lemma ExpandGap(q0: int, D: int, g: int)
    requires g == TWO128 - D
    ensures (TWO64 - q0) * g == TWO192 - TWO64 * D - q0 * TWO128 + q0 * D
  {
    assert q0 * g == q0 * TWO128 - q0 * D;
  }

  /** A weighted mean of `g` and `q0 * 2^64`, with weights `g` and `D`, is below one of them. */
  lemma MeanBelowMax(g: nat, D: nat, q0: nat, E: int, R: int)
    requires g + D == TWO128 && TWO64 * E < g * g && TWO64 * R == E + q0 * D
    ensures R < g || R < q0 * TWO64
  {
    assert g * g + g * D == TWO128 * g by { assert g * (g + D) == g * g + g * D; }
    if q0 * TWO64 <= g {
      MulBound(q0 * TWO64, D, g, D);
      assert (q0 * TWO64) * D == TWO64 * (q0 * D);
    } else {
      MulBound(g, g, g, q0 * TWO64);
      assert g * (q0 * TWO64) + TWO64 * (q0 * D) == TWO64 * (q0 * TWO128) by {
        assert q0 * g + q0 * D == q0 * TWO128 by { assert q0 * (g + D) == q0 * g + q0 * D; }
        assert g * (q0 * TWO64) == TWO64 * (q0 * g);
      }
    }
  }

  /** The part of the remainder that does not depend on the low word of the estimate. */
  lemma EstimateExcess(u2: nat, u1: nat, u0: nat, d1: nat, d0: nat, D: nat, g: nat, k: nat, E: int)
    requires Normalized(d1) && d0 < TWO64 && D == d1 * TWO64 + d0 && u2 * TWO64 + u1 < D && g == TWO128 - D
    requires u1 < TWO64 && u0 < TWO64 && 1 <= k <= D && k <= g * TWO64
    requires E == u2 * k + u1 * g + u0 * TWO64 - TWO64 * D
    ensures TWO64 * E < g * g
  {
    if u2 < d1 {
      MulBound(u2, k, d1 - 1, D);
      MulBound(u1, g, TWO64 - 1, g);
      ExcessLow(d1, d0, D, g);
    } else if g >= TWO64 {
      assert u2 == d1 && u1 + 1 <= d0;
      MulBound(u2, k, d1, D);
      MulBound(u1, g, d0 - 1, g);
      ExcessTop(d1, d0, D, g);
    } else {
      assert u2 == d1 && u1 + 1 <= d0;
      MulBound(u2, k, d1, g * TWO64);
      MulBound(u1, g, d0 - 1, g);
      ExcessNearTop(d1, d0, D, g);
      MulBound(g, g, g, g);
    }
  }

  lemma ExcessLow(d1: int, d0: int, D: int, g: int)
    requires D == d1 * TWO64 + d0 && g == TWO128 - D && d0 >= 0 && D >= 0
    ensures TWO64 * ((d1 - 1) * D + (TWO64 - 1) * g + (TWO64 - 1) * TWO64 - TWO64 * D) < g * g
  {
    SquareOfGap(D, g);
    TopProduct(d1, d0, D);
    assert (d1 - 1) * D == d1 * D - D;
    assert d0 * D >= 0 by { MulBound(d0, D, d0, D); }
  }

  lemma SquareOfGap(D: int, g: int)
    requires g == TWO128 - D
    ensures D * D - TWO128 * D == g * g - TWO128 * g
  {
    assert D * D == TWO128 * TWO128 - 2 * TWO128 * g + g * g by {
      assert D == TWO128 - g;
      SquareOfDifference(TWO128, g);
    }
  }

  lemma ExcessTop(d1: int, d0: int, D: int, g: int)
    requires D == d1 * TWO64 + d0 && g == TWO128 - D && 0 <= d0 < TWO64 && D >= 0 && g >= TWO64
    ensures TWO64 * (d1 * D + (d0 - 1) * g + (TWO64 - 1) * TWO64 - TWO64 * D) < g * g
  {
    SquareOfGap(D, g);
    TopProduct(d1, d0, D);
    var c := TWO64 - d0;
    Distribute(TWO64, c, g);
    Distribute(d0, 1, g);
    Distribute(TWO64, c, D);
    PositiveProduct(c, TWO64 * g - D);
    TopExpand(c, g, D);
    ExcessTopSum(D, g, D * D, g * g, d1 * D, d0 * D, (d0 - 1) * g, c * g, c * D);
  }

  lemma TopProduct(d1: int, d0: int, D: int)
    requires D == d1 * TWO64 + d0
    ensures TWO64 * (d1 * D) == D * D - d0 * D
  {
    assert (d1 * TWO64) * D == (D - d0) * D;
  }

  lemma TopExpand(c: int, g: int, D: int)
    ensures c * (TWO64 * g - D) == TWO64 * (c * g) - c * D
  {
  }

  /** The linear combination behind ExcessTop, with every product named. */
  lemma ExcessTopSum(D: int, g: int, DD: int, gg: int, d1D: int, d0D: int, d0g: int, cg: int, cD: int)
    requires g == TWO128 - D && DD - TWO128 * D == gg - TWO128 * g && TWO64 * d1D == DD - d0D
    requires d0g == TWO64 * g - cg - g && d0D == TWO64 * D - cD && TWO64 * cg - cD > 0
    ensures TWO64 * (d1D + d0g + (TWO64 - 1) * TWO64 - TWO64 * D) < gg
  {
  }

  lemma ExcessNearTop(d1: int, d0: int, D: int, g: int)
    requires D == d1 * TWO64 + d0 && g == TWO128 - D && 0 < g < TWO64
    ensures d1 * (g * TWO64) + (d0 - 1) * g + (TWO64 - 1) * TWO64 - TWO64 * D < 0
  {
    assert d1 * (g * TWO64) + (d0 - 1) * g == g * D - g by { assert g * D == g * (d1 * TWO64) + g * d0; }
    assert (TWO64 - g) * D >= D by { MulAtLeast(D, TWO64 - g); }
    assert (TWO64 - g) * D == TWO64 * D - g * D;
  }

  lemma WrappedRemainder3(u2: nat, u1: U64, u0: U64, q1: U64, d: U128, R: int)
    requires R == (u2 * TWO64 + u1) * TWO64 + u0 - (q1 + 1) * Val(d) && 0 - TWO128 <= R < TWO128
    ensures Val(Sub(Sub(U128(Wrap(u1 - q1 * d.hi), u0), Umul(d.lo, q1)), d))
            == if R < 0 then R + TWO128 else R
  {
    var w := Wrap(u1 - q1 * d.hi);
    var a := WrapCarry(u1 - q1 * d.hi);
    var t := Umul(d.lo, q1);
    var c1 := SubCarry(U128(w, u0), t);
    var s := Sub(U128(w, u0), t);
    var c2 := SubCarry(s, d);
    var r := Sub(s, d);
    assert (q1 + 1) * Val(d) == (q1 * d.hi) * TWO64 + d.lo * q1 + Val(d) by { ProductOfWords(q1, d.hi, d.lo); }
    MultipleGap(R, Val(r), u2 + a - c1 - c2);
  }

  lemma ProductOfWords(q: int, h: int, l: int)
    ensures (q + 1) * (h * TWO64 + l) == (q * h) * TWO64 + l * q + (h * TWO64 + l)
  {
    assert q * (h * TWO64) == (q * h) * TWO64;
  }

  lemma WrapCarry(x: int) returns (a: int)
    ensures x == TWO64 * a + Wrap(x)
  {
    a := x / TWO64;
  }

  lemma SubCarry(x: U128, y: U128) returns (c: int)
    ensures Val(Sub(x, y)) == Val(x) - Val(y) + TWO128 * c
  {
    c := if Val(x) >= Val(y) then 0 else 1;
  }

  lemma MultipleGap(R: int, r: nat, m: int)
    requires R == r + TWO128 * m && r < TWO128 && 0 - TWO128 <= R < TWO128
    ensures r == if R < 0 then R + TWO128 else R
  {
  }

  // ----- Full division -----

  /** Counting leading zeros by halving the window six times. */
  method ClzGeneric(x: U64) returns (r: nat)
    ensures x == 0 ==> r == 64
    ensures x != 0 ==> r < 64 && Exp(2, 63 - r) <= x < Exp(2, 64 - r)
  {
    hide Exp, Shr, InWindow;
    var n: nat, y: nat, i := 64, x, 5;
    ClzStart(x);
    while i >= 0
      invariant -1 <= i <= 5
      invariant Exp(2, i + 1) <= n <= 64
      invariant InWindow(x, y, 64 - n, Exp(2, i + 1))
      invariant x == 0 ==> n == 64
    {
      var s := Exp(2, i);
      NextExp(i);
      ClzStep(x, y, 64 - n, s);
      var hi := Shr(y, s);
      if hi != 0 {
        n := n - s;
        y := hi;
      }
      i := i - 1;
    }
    ClzDone(x, y, 64 - n);
    r := n - y;
  }

  /** After shifting `done` bits away, what is left of `x` is below 2^s, and zero only if `x` is. */
  predicate InWindow(x: nat, y: nat, done: nat, s: nat) {
    y == Shr(x, done) && y < Exp(2, s) && (y == 0 <==> x == 0)
  }

  lemma NextExp(n: nat)
    ensures Exp(2, n + 1) == 2 * Exp(2, n)
  {
  }

  lemma ClzStart(x: U64)
    ensures Exp(2, 0) == 1 && Exp(2, 6) == 64 && InWindow(x, x, 0, 64)
  {
    Power64(64);
    assert Shr(x, 0) == x;
  }

  /** One halving: the upper part is a longer shift of the input, and what is kept fits half the window. */
  lemma ClzStep(x: nat, y: nat, done: nat, s: nat)
    requires InWindow(x, y, done, 2 * s)
    ensures Shr(y, s) != 0 ==> InWindow(x, Shr(y, s), done + s, s) && x != 0
    ensures Shr(y, s) == 0 ==> InWindow(x, y, done, s)
  {
    ShrShr(x, done, s);
    var p := Exp(2, s);
    ExpPositive(2, s);
    ExpDouble(2, s, p);
    assert x == 0 ==> y / p == 0 by { if x == 0 { DivModUnique(0, p, 0, 0); } }
    hide Exp;
    QuotientOfSquare(y, p, p * p);
  }

  lemma ShrShr(x: nat, a: nat, b: nat)
    ensures Shr(Shr(x, a), b) == Shr(x, a + b)
  {
    ExpPositive(2, a);
    ExpPositive(2, b);
    ExpAdd(2, a, b);
    DivDiv(x, Exp(2, a), Exp(2, b));
  }

  lemma QuotientOfSquare(y: nat, p: nat, pp: nat)
    requires p > 0 && y < pp == p * p
    ensures y / p < p && (y / p == 0 ==> y < p)
  {
    var h, l := DivMod(y, p);
    if h >= p { MulBound(p, p, p, h); }
  }

  lemma ClzDone(x: nat, y: nat, done: nat)
    requires done < 64 && InWindow(x, y, done, 1)
    ensures y <= 1 && (x == 0 <==> y == 0)
    ensures x != 0 ==> Exp(2, done) <= x < Exp(2, done + 1)
  {
    ExpPositive(2, done);
    assert Exp(2, 1) == 2;
    var _, _ := DivMod(x, Exp(2, done));
  }

  /** Undoing the normalizing shift on the remainder. */
  lemma Unshift(x: nat, y: nat, p: nat, Q: nat, r: nat)
    requires p > 0 && x * p == Q * (y * p) + r && r < y * p
    ensures Q * y + r / p == x && r / p < y
  {
    var h, l := DivMod(r, p);
    var m := x - Q * y;
    assert m * p == r by { assert (x - Q * y) * p == x * p - (Q * y) * p; Assoc(Q, y, p); }
    if m < 0 { NonPositiveProduct(m, p); PositiveProduct(-m, p); MulNegated(p, m); }
    DivModUnique(r, p, m, 0);
    if m >= y { MulBound(y, p, m, p); }
  }

  /** Unsigned division: on every path the quotient and remainder are the mathematical ones. */
  method Udivrem(x: U128, y: U128) returns (r: DivResult<U128>)
    requires Val(y) != 0
    ensures Val(r.quot) * Val(y) + Val(r.rem) == Val(x) && Val(r.rem) < Val(y)
  {
    if y.hi == 0 {
      r := UdivremByWord(x, y.lo);
      return;
    }
    if y.hi > x.hi {
      return DivResult(U128(0, 0), x);
    }
    var lsh := ClzGeneric(y.hi);
    if lsh == 0 {
      assert Normalized(y.hi) by { Power64(64); }
      var q := if y.hi < x.hi || y.lo <= x.lo then 1 else 0;
      return DivResult(U128(0, q), Sub(x, if q != 0 then y else U128(0, 0)));
    }
    r := UdivremByPair(x, y, lsh);
  }

  /** The two-word divisor with room to normalize: one 3-by-2 step. */
  method UdivremByPair(x: U128, y: U128, lsh: nat) returns (r: DivResult<U128>)
    requires 0 < lsh < 64 && Exp(2, 63 - lsh) <= y.hi < Exp(2, 64 - lsh)
    ensures Val(r.quot) * Val(y) + Val(r.rem) == Val(x) && Val(r.rem) < Val(y)
  {
    var rsh := 64 - lsh;
    var yn := U128(ShlHigh(y.hi, y.lo, lsh), Shl64(y.lo, lsh));
    var xnEx, xnHi, xnLo := Shr(x.hi, rsh), ShlHigh(x.hi, x.lo, lsh), Shl64(x.lo, lsh);
    NormalizePair(y, lsh);
    ShlWords(x.hi, x.lo, lsh);
    PushedOut(x.hi, xnHi, lsh, yn);
    var v := Reciprocal3by2(yn);
    var quot, rem := Udivrem3by2(xnEx, xnHi, xnLo, yn, v);
    Unshift(Val(x), Val(y), Exp(2, lsh), quot, Val(rem));
    return DivResult(U128(0, quot), ShiftRight(rem, lsh));
  }

  /** The single-word divisor: two 2-by-1 steps on the normalized operands. */
  method UdivremByWord(x: U128, y: U64) returns (r: DivResult<U128>)
    requires y != 0
    ensures Val(r.quot) * y + Val(r.rem) == Val(x) && Val(r.rem) < y
  {
    var xnEx, xnHi, xnLo, yn;
    var lsh := ClzGeneric(y);
    if lsh != 0 {
      var rsh := 64 - lsh;
      xnEx := Shr(x.hi, rsh);
      xnHi := ShlHigh(x.hi, x.lo, lsh);
      xnLo := Shl64(x.lo, lsh);
      yn := Shl64(y, lsh);
      NormalizeWord(y, lsh);
      ShlWords(x.hi, x.lo, lsh);
      PushedOut(x.hi, xnHi, lsh, U128(yn, 0));
    } else {
      xnEx := 0;
      xnHi := x.hi;
      xnLo := x.lo;
      yn := y;
      assert Normalized(y) by { Power64(64); }
    }
    var v := Reciprocal2by1(yn);
    var res := Udivrem2by1(U128(xnEx, xnHi), yn, v);
    var q1 := res.quot;
    ghost var first := res;
    res := Udivrem2by1(U128(res.rem, xnLo), yn, v);
    ChainWords(xnEx, xnHi, xnLo, yn, first, res);
    Unshift(Val(x), y, Exp(2, lsh), q1 * TWO64 + res.quot, res.rem);
    return DivResult(U128(q1, res.quot), U128(0, Shr(res.rem, lsh)));
  }

  lemma NormalizeWord(y: U64, s: nat)
    requires 0 < s < 64 && Exp(2, 63 - s) <= y < Exp(2, 64 - s)
    ensures Exp(2, s) > 0 && Shl64(y, s) == y * Exp(2, s) && Normalized(Shl64(y, s))
  {
    Split64(y, s);
    assert Exp(2, 64 - s) == 2 * Exp(2, 63 - s);
    NormalizeBy(y, Exp(2, s), Exp(2, 63 - s));
  }

  lemma NormalizeBy(y: nat, p: nat, q: nat)
    requires p * (2 * q) == TWO64 && q <= y < 2 * q
    ensures y % (2 * q) == y && 0x8000_0000_0000_0000 <= y * p < TWO64
  {
    DivModUnique(y, 2 * q, 0, y);
    NormalizeRange(y, p, q);
  }

  lemma NormalizeRange(y: nat, p: nat, q: nat)
    requires p * (2 * q) == TWO64 && q <= y < 2 * q
    ensures 0x8000_0000_0000_0000 <= y * p < TWO64
  {
    assert p * (2 * q) == 2 * (q * p);
    MulBound(q, p, y, p);
    MulBound(y, p, 2 * q - 1, p);
    assert (2 * q - 1) * p == p * (2 * q) - p;
  }

  lemma NormalizePair(y: U128, s: nat)
    requires 0 < s < 64 && Exp(2, 63 - s) <= y.hi < Exp(2, 64 - s)
    ensures Exp(2, s) > 0
    ensures Val(U128(ShlHigh(y.hi, y.lo, s), Shl64(y.lo, s))) == Val(y) * Exp(2, s)
    ensures Normalized(ShlHigh(y.hi, y.lo, s))
  {
    NormalizeWord(y.hi, s);
    ShlWords(y.hi, y.lo, s);
    DivModUnique(y.hi, Exp(2, 64 - s), 0, y.hi);
  }

  /** The bits a normalizing shift pushes out stay below the normalized divisor. */
  lemma PushedOut(xhi: U64, w: U64, s: nat, d: U128)
    requires 0 < s < 64 && Normalized(d.hi)
    ensures Shr(xhi, 64 - s) < d.hi
    ensures Val(U128(Shr(xhi, 64 - s), w)) < Val(d)
  {
    Split64(xhi, s);
    ExpMonotone(2, s, 63);
    Power64(64);
  }

  lemma ChainWords(xe: nat, xh: nat, xl: nat, yn: nat, a: DivResult<U64>, b: DivResult<U64>)
    requires a.quot * yn + a.rem == xe * TWO64 + xh && b.quot * yn + b.rem == a.rem * TWO64 + xl
    ensures (a.quot * TWO64 + b.quot) * yn + b.rem == (xe * TWO64 + xh) * TWO64 + xl
  {
    assert (a.quot * TWO64 + b.quot) * yn == (a.quot * yn) * TWO64 + b.quot * yn;
  }

  // ----- Signed division -----

  const TWO127: nat := 0x8000_0000_0000_0000_0000_0000_0000_0000

  function SignedVal(x: U128): int {
    Reading(Val(x), TWO127)
  }

  /** Signed division truncates; the quotient wraps only for the minimum divided by -1. */
  method Sdivrem(x: U128, y: U128) returns (r: DivResult<U128>)
    requires Val(y) != 0
    ensures Val(r.quot) == Encode(TruncDiv(SignedVal(x), SignedVal(y)), TWO127)
    ensures SignedVal(r.rem) == TruncRem(SignedVal(x), SignedVal(y))
    ensures SignedVal(r.quot) == TruncDiv(SignedVal(x), SignedVal(y))
            <==> !(SignedVal(x) == 0 - TWO127 && SignedVal(y) == -1)
  {
    var xIsNeg := x.hi >= 0x8000_0000_0000_0000;
    var yIsNeg := y.hi >= 0x8000_0000_0000_0000;
    var xAbs := if xIsNeg then Neg(x) else x;
    var yAbs := if yIsNeg then Neg(y) else y;
    ghost var a, b := SignedVal(x), SignedVal(y);
    assert Val(xAbs) == Abs(a) && Val(yAbs) == Abs(b) && xIsNeg == (a < 0) && yIsNeg == (b < 0);
    var qIsNeg := xIsNeg != yIsNeg;
    var res := Udivrem(xAbs, yAbs);
    DivideMagnitudes(a, b, Val(res.quot), Val(res.rem));
    return DivResult(if qIsNeg then Neg(res.quot) else res.quot, if xIsNeg then Neg(res.rem) else res.rem);
  }

  lemma DivideMagnitudes(a: int, b: int, q: nat, r: nat)
    requires b != 0 && 0 - TWO127 <= a < TWO127 && 0 - TWO127 <= b < TWO127
    requires q * Abs(b) + r == Abs(a) && r < Abs(b)
    ensures q <= TWO127 && r < TWO127
    ensures TruncDiv(a, b) == (if (a < 0) == (b < 0) then q else 0 - q)
    ensures TruncRem(a, b) == (if a < 0 then 0 - r else r)
    ensures Encode(TruncDiv(a, b), TWO127) == if (a < 0) != (b < 0) && q != 0 then TWO128 - q else q
    ensures Reading(Encode(TruncDiv(a, b), TWO127), TWO127) == TruncDiv(a, b)
            <==> !(a == 0 - TWO127 && b == -1)
  {
    DivModUnique(Abs(a), Abs(b), q, r);
    SignedQuotient(a, b, q);
    EncodeMagnitude(q, (a < 0) != (b < 0), TWO127);
    QuotientReading(a, b, TWO127);
  }
}
