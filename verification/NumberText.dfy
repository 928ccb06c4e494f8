/** Printing and parsing of intx numbers. `bits` is the width: 128, 256 or 512. */
module NumberText {
  import opened Words

  datatype ParseError = InvalidDigit | Overflow
  datatype Parsed = Ok(value: nat) | Err(error: ParseError)

  predicate Width(bits: nat) {
    bits == 128 || bits == 256 || bits == 512
  }

  /** `2^bits`, spelled out for the three widths. */
  function Modulus(bits: nat): (m: nat)
    requires Width(bits)
    ensures m > 0
  {
    if bits == 128 then TWO128 else if bits == 256 then TWO256 else TWO256 * TWO256
  }

  /** `std::numeric_limits<uint<bits>>::digits10`. */
  function Digits10(bits: nat): nat
    requires Width(bits)
  {
    if bits == 128 then 38 else if bits == 256 then 77 else 154
  }

  /** The values above are `int(0.3010299956639812 * bits)`. */
  lemma Digits10Formula(bits: nat)
    requires Width(bits)
    ensures Digits10(bits) == bits * 3010299956639812 / 10000000000000000
  {
  }

  // ----- Printing -----

  function DigitChar(d: nat): char
    requires d < 36
  {
    if d < 10 then ('0' as int + d) as char else ('a' as int + d - 10) as char
  }

  /** Positional notation, most significant digit first. */
  function Digits(x: nat, base: nat): string
    requires 2 <= base <= 36
  {
    if x < base then [DigitChar(x)]
    else
      SplitDigit(x, base);
      Digits(x / base, base) + [DigitChar(x % base)]
  }

  lemma SplitDigit(x: nat, base: nat)
    requires 2 <= base && x > 0
    ensures x / base < x && x % base < base
  {
    var q, r := DivMod(x, base);
    MulLeft(q, 2, base);
  }

  function Reverse(s: string): string {
    if s == "" then "" else Reverse(s[1..]) + [s[0]]
  }

  lemma {:induction false} ReverseAppend(s: string, c: char)
    ensures Reverse(s + [c]) == [c] + Reverse(s)
  {
    if s == "" {
      assert s + [c] == [c];
      assert [c][1..] == "";
    } else {
      ReverseAppend(s[1..], c);
      assert (s + [c])[1..] == s[1..] + [c];
    }
  }

  /** Prints `x`, or reports a base outside 2 to 36. The division is the exact one of Division.Udivrem. */
  method ToString(x: nat, base: int) returns (ok: bool, s: string)
    ensures ok <==> 2 <= base <= 36
    ensures ok ==> s == Digits(x, base)
  {
    if base < 2 || base > 36 {
      return false, "";
    }
    if x == 0 {
      return true, "0";
    }
    ok, s := true, "";
    var y: nat := x;
    while y != 0
      invariant y == 0 ==> Reverse(s) == Digits(x, base)
      invariant y != 0 ==> Digits(y, base) + Reverse(s) == Digits(x, base)
    {
      var quot, rem := DivideByBase(y, base);
      var c := DigitChar(rem);
      ReverseAppend(s, c);
      assert quot != 0 ==> Digits(quot, base) + ([c] + Reverse(s)) == Digits(y, base) + Reverse(s);
      s := s + [c];
      y := quot;
    }
    s := Reverse(s);
  }

  /** One division of the printing loop: the digit it yields and the digits still to come. */
  method DivideByBase(y: nat, base: nat) returns (quot: nat, rem: nat)
    requires 2 <= base <= 36 && y != 0
    ensures quot < y && rem < base
    ensures Digits(y, base) == (if quot == 0 then [] else Digits(quot, base)) + [DigitChar(rem)]
  {
    quot, rem := y / base, y % base;
    QuotientSmaller(y, base, quot, rem);
  }

  lemma QuotientSmaller(y: nat, base: nat, q: nat, r: nat)
    requires 2 <= base && y != 0 && q == y / base && r == y % base
    ensures q < y && r < base && (q == 0 <==> y < base) && (q == 0 ==> r == y)
  {
    var _, _ := DivMod(y, base);
    QuotientSmallerBy(y, base, q, r);
  }

  lemma QuotientSmallerBy(y: nat, base: nat, q: nat, r: nat)
    requires 2 <= base && y != 0 && y == base * q + r && r < base
    ensures q < y && (q == 0 <==> y < base) && (q == 0 ==> r == y)
  {
    if q >= 1 {
      assert base * q == 2 * q + (base - 2) * q;
      assert (base - 2) * q >= 0;
      MulAtLeast(base, q);
    }
  }

  // ----- Parsing -----

  function DecDigit(c: char): Parsed {
    if '0' <= c <= '9' then Ok(c as int - '0' as int) else Err(InvalidDigit)
  }

  function HexDigit(c: char): Parsed {
    if 'a' <= c <= 'f' then Ok(c as int - ('a' as int - 10))
    else if 'A' <= c <= 'F' then Ok(c as int - ('A' as int - 10))
    else DecDigit(c)
  }

  /** The decimal loop from a state with `n` digits read and value `x`; a NUL ends the C string. */
  function ParseDec(s: string, n: nat, x: nat, bits: nat): Parsed
    requires Width(bits)
  {
    if s == "" || s[0] == '\0' then Ok(x)
    else if n > Digits10(bits) then Err(Overflow)
    else
      var d := DecDigit(s[0]);
      if d.Err? then d
      else
        var x' := (x * 10 + d.value) % Modulus(bits);
        if x' < d.value then Err(Overflow) else ParseDec(s[1..], n + 1, x', bits)
  }

  function ParseHex(s: string, n: nat, x: nat, bits: nat): Parsed
    requires Width(bits)
  {
    if s == "" || s[0] == '\0' then Ok(x)
    else if n + 1 > bits / 4 then Err(Overflow)
    else
      var d := HexDigit(s[0]);
      if d.Err? then d
      else ParseHex(s[1..], n + 1, (x * 16) % Modulus(bits) + d.value, bits)
  }

  function Parse(s: string, bits: nat): Parsed
    requires Width(bits)
  {
    if |s| >= 2 && s[0] == '0' && s[1] == 'x' then ParseHex(s[2..], 0, 0, bits) else ParseDec(s, 0, 0, bits)
  }

  method FromString(s: string, bits: nat) returns (r: Parsed)
    requires Width(bits)
    ensures r == Parse(s, bits)
  {
    var x: nat, numDigits: nat, i: nat := 0, 0, 0;
    if |s| >= 2 && s[0] == '0' && s[1] == 'x' {
      i := 2;
      while i < |s| && s[i] != '\0'
        invariant 2 <= i <= |s|
        invariant ParseHex(s[i..], numDigits, x, bits) == Parse(s, bits)
        decreases |s| - i
      {
        numDigits := numDigits + 1;
        if numDigits > bits / 4 { return Err(Overflow); }
        var d := HexDigit(s[i]);
        if d.Err? { return d; }
        assert s[i..][1..] == s[i + 1..];
        x := (x * 16) % Modulus(bits) + d.value;
        i := i + 1;
      }
      return Ok(x);
    }
    assert s[0..] == s;
    while i < |s| && s[i] != '\0'
      invariant 0 <= i <= |s|
      invariant ParseDec(s[i..], numDigits, x, bits) == Parse(s, bits)
      decreases |s| - i
    {
      numDigits := numDigits + 1;
      if numDigits - 1 > Digits10(bits) { return Err(Overflow); }
      var d := DecDigit(s[i]);
      if d.Err? { return d; }
      assert s[i..][1..] == s[i + 1..];
      x := (x * 10 + d.value) % Modulus(bits);
      if x < d.value { return Err(Overflow); }
      i := i + 1;
    }
    return Ok(x);
  }

  // ----- Decimal round trip -----

  predicate AllDec(s: string) {
    forall i :: 0 <= i < |s| ==> '0' <= s[i] <= '9'
  }

  function DecDigitValue(c: char): nat
    requires '0' <= c <= '9'
  {
    c as int - '0' as int
  }

  /** The number that decimal digits `s` stand for, written after a number `x`. */
  function DecFrom(x: nat, s: string): nat
    requires AllDec(s)
    decreases |s|
  {
    if s == "" then x else DecFrom(x * 10 + DecDigitValue(s[0]), s[1..])
  }

  lemma {:induction false} DecFromGrows(x: nat, s: string)
    requires AllDec(s)
    ensures DecFrom(x, s) >= x
    decreases |s|
  {
    if s != "" { DecFromGrows(x * 10 + DecDigitValue(s[0]), s[1..]); }
  }

  lemma {:induction false} DecFromSnoc(x: nat, s: string, c: char)
    requires AllDec(s) && '0' <= c <= '9'
    ensures AllDec(s + [c]) && DecFrom(x, s + [c]) == DecFrom(x, s) * 10 + DecDigitValue(c)
    decreases |s|
  {
    if s == "" {
      assert s + [c] == [c];
      assert [c][1..] == "";
    } else {
      assert (s + [c])[1..] == s[1..] + [c];
      DecFromSnoc(x * 10 + DecDigitValue(s[0]), s[1..], c);
    }
  }

  /** One digit that fits: the guard stays silent and nothing wraps. */
  lemma ParseDecStep(s: string, n: nat, x: nat, bits: nat)
    requires Width(bits) && s != "" && '0' <= s[0] <= '9' && n <= Digits10(bits)
    requires x * 10 + DecDigitValue(s[0]) < Modulus(bits)
    ensures ParseDec(s, n, x, bits) == ParseDec(s[1..], n + 1, x * 10 + DecDigitValue(s[0]), bits)
  {
    var v := x * 10 + DecDigitValue(s[0]);
    DivModUnique(v, Modulus(bits), 0, v);
  }

  /** As long as the digits fit the count and the value fits the width, the loop reads `b` exactly. */
  lemma {:induction false} ParseDecPrefix(n: nat, x: nat, b: string, c: string, bits: nat)
    requires Width(bits) && AllDec(b) && DecFrom(x, b) < Modulus(bits) && n + |b| <= Digits10(bits) + 1
    ensures ParseDec(b + c, n, x, bits) == ParseDec(c, n + |b|, DecFrom(x, b), bits)
    decreases |b|
  {
    if b == "" {
      assert b + c == c;
    } else {
      var x' := x * 10 + DecDigitValue(b[0]);
      DecFromGrows(x', b[1..]);
      assert (b + c)[1..] == b[1..] + c;
      ParseDecStep(b + c, n, x, bits);
      ParseDecPrefix(n + 1, x', b[1..], c, bits);
    }
  }

  /** Parsed results never reach the modulus. */
  lemma {:induction false} ParseDecBelow(s: string, n: nat, x: nat, bits: nat)
    requires Width(bits) && x < Modulus(bits)
    ensures var r := ParseDec(s, n, x, bits); r.Ok? ==> r.value < Modulus(bits)
    decreases |s|
  {
    if s != "" && DecDigit(s[0]).Ok? {
      ParseDecBelow(s[1..], n + 1, (x * 10 + DecDigit(s[0]).value) % Modulus(bits), bits);
    }
  }

  /** More digits than the guard allows are refused. */
  lemma {:induction false} ParseDecTooLong(s: string, n: nat, x: nat, bits: nat)
    requires Width(bits) && AllDec(s) && n + |s| > Digits10(bits) + 1 && n <= Digits10(bits) + 1
    ensures ParseDec(s, n, x, bits) == Err(Overflow)
    decreases |s|
  {
    if n <= Digits10(bits) {
      var x' := (x * 10 + DecDigit(s[0]).value) % Modulus(bits);
      if x' >= DecDigit(s[0]).value { ParseDecTooLong(s[1..], n + 1, x', bits); }
    }
  }

  lemma NoPrefix(s: string, bits: nat)
    requires Width(bits) && AllDec(s)
    ensures Parse(s, bits) == ParseDec(s, 0, 0, bits)
  {
  }

  /** A string of decimal digits parses to its value exactly when it is short enough and in range. */
  lemma DecimalParsing(s: string, bits: nat)
    requires Width(bits) && AllDec(s)
    ensures Parse(s, bits) == Ok(DecFrom(0, s)) <==> |s| <= Digits10(bits) + 1 && DecFrom(0, s) < Modulus(bits)
  {
    NoPrefix(s, bits);
    if |s| > Digits10(bits) + 1 {
      ParseDecTooLong(s, 0, 0, bits);
    } else if DecFrom(0, s) < Modulus(bits) {
      assert s + "" == s;
      ParseDecPrefix(0, 0, s, "", bits);
    } else {
      ParseDecBelow(s, 0, 0, bits);
    }
  }

  lemma {:induction false} PrintedDigits(x: nat)
    ensures AllDec(Digits(x, 10)) && DecFrom(0, Digits(x, 10)) == x
  {
    var c := DigitChar(x % 10);
    if x >= 10 {
      PrintedDigits(x / 10);
      DecFromSnoc(0, Digits(x / 10, 10), c);
    } else {
      DecFromSnoc(0, "", c);
      assert "" + [c] == [c];
    }
  }

  lemma {:induction false} DigitsShort(x: nat, base: nat, k: nat)
    requires 2 <= base <= 36 && k >= 1 && x < Exp(base, k)
    ensures |Digits(x, base)| <= k
  {
    if x >= base {
      assert Exp(base, 0) == 1;
      TailFitsDigits(x, base, k);
      DigitsShort(x / base, base, k - 1);
    }
  }

  lemma TailFitsDigits(x: nat, base: nat, k: nat)
    requires 2 <= base <= x && k >= 1 && x < Exp(base, k)
    ensures k >= 2 && 1 <= x / base < Exp(base, k - 1)
  {
    assert Exp(base, 0) == 1;
    var q, r := DivMod(x, base);
    QuotientFitsDigits(x, base, q, r, Exp(base, k - 1));
  }

  lemma QuotientFitsDigits(x: nat, base: nat, q: nat, r: nat, p: nat)
    requires base > 0 && x == base * q + r && r < base <= x && x < base * p
    ensures 1 <= q < p
  {
    if q >= p { MulLeft(base, p, q); }
  }

  lemma MulLeft(a: nat, b: nat, c: nat)
    requires b <= c
    ensures a * b <= a * c
  {
  }

  /** Printed values of any supported width fit the decimal digit guard. */
  lemma DecDigitsShort(x: nat, bits: nat)
    requires Width(bits) && x < Modulus(bits)
    ensures |Digits(x, 10)| <= Digits10(bits) + 1
  {
    TenPowers(bits, Digits10(bits) + 1);
    DigitsShort(x, 10, Digits10(bits) + 1);
  }

  lemma TenPowers(bits: nat, k: nat)
    requires Width(bits) && k == Digits10(bits) + 1
    ensures Modulus(bits) <= Exp(10, k)
    ensures bits == 128 ==> Exp(10, k - 1) == 100000000000000000000000000000000000000
  {
    Ten39(39);
    if bits == 128 {
    } else if bits == 256 {
      ExpDouble(10, 39, 1000000000000000000000000000000000000000);
      assert k == 2 * 39;
    } else {
      ExpDouble(10, 39, 1000000000000000000000000000000000000000);
      ExpDouble(10, 2 * 39, 1000000000000000000000000000000000000000 * 1000000000000000000000000000000000000000);
      assert k + 1 == 2 * (2 * 39);
      assert Exp(10, k + 1) == 10 * Exp(10, k);
    }
  }

  lemma Ten39(n: nat)
    requires n == 39
    ensures Exp(10, n) == 1000000000000000000000000000000000000000
    ensures Exp(10, n - 1) == 100000000000000000000000000000000000000
  {
    assert Exp(10, 3) == 1000;
    ExpDouble(10, 3, 1000);
    ExpDouble(10, 2 * 3, 1000000);
    ExpDouble(10, 2 * (2 * 3), 1000000000000);
    ExpAdd(10, 12, 3);
    ExpAdd(10, 24, n - 24);
    assert n - 24 == 12 + 3;
    assert Exp(10, n) == 10 * Exp(10, n - 1);
  }

  /** Printing in decimal and parsing gives the number back, at every width. */
  lemma DecimalRoundTrip(x: nat, bits: nat)
    requires Width(bits) && x < Modulus(bits)
    ensures Parse(Digits(x, 10), bits) == Ok(x)
  {
    PrintedDigits(x);
    DecDigitsShort(x, bits);
    DecimalParsing(Digits(x, 10), bits);
  }

  /** All that parsing decimal digits can give. Past the digit count the guard refuses. Within it only the
      last digit can overflow, and the check after it sees that exactly when the wrapped value is below
      that digit; otherwise the wrapped value is returned. */
  lemma DecimalOutcome(s: string, bits: nat)
    requires Width(bits) && AllDec(s)
    ensures var v, m := DecFrom(0, s), Modulus(bits);
            Parse(s, bits)
            == if |s| > Digits10(bits) + 1 then Err(Overflow)
               else if s != "" && v % m < DecDigitValue(s[|s| - 1]) then Err(Overflow)
               else Ok(v % m)
  {
    hide ParseDec, DecFrom, Parse, Modulus, Digits10;
    NoPrefix(s, bits);
    if |s| > Digits10(bits) + 1 {
      ParseDecTooLong(s, 0, 0, bits);
    } else if s == "" {
      NoDigits(bits);
    } else {
      var n := |s| - 1;
      assert s == s[..n] + [s[n]];
      DecFromSnoc(0, s[..n], s[n]);
      ShortPrefixFits(s[..n], bits);
      ParseDecPrefix(0, 0, s[..n], [s[n]], bits);
      LastDigit(n, DecFrom(0, s[..n]), s[n], bits);
    }
  }

  lemma NoDigits(bits: nat)
    requires Width(bits)
    ensures ParseDec("", 0, 0, bits) == Ok(DecFrom(0, "") % Modulus(bits))
  {
    DivModUnique(0, Modulus(bits), 0, 0);
  }

  lemma LastDigit(n: nat, x: nat, c: char, bits: nat)
    requires Width(bits) && n <= Digits10(bits) && '0' <= c <= '9'
    ensures var v := (x * 10 + DecDigitValue(c)) % Modulus(bits);
            ParseDec([c], n, x, bits) == if v < DecDigitValue(c) then Err(Overflow) else Ok(v)
  {
    assert [c][1..] == "";
  }

  /** As many digits as are always safe. */
  lemma ShortPrefixFits(p: string, bits: nat)
    requires Width(bits) && AllDec(p) && |p| <= Digits10(bits)
    ensures DecFrom(0, p) < Modulus(bits)
  {
    DecFromBound(0, p);
    ExpMonotone(10, |p|, Digits10(bits));
    TenBelow(bits, Digits10(bits));
  }

  lemma {:induction false} DecFromBound(x: nat, s: string)
    requires AllDec(s)
    ensures DecFrom(x, s) < (x + 1) * Exp(10, |s|)
    decreases |s|
  {
    if s != "" {
      var d := DecDigitValue(s[0]);
      DecFromBound(x * 10 + d, s[1..]);
      NextPower(x, d, Exp(10, |s| - 1), DecFrom(x, s));
    }
  }

  lemma NextPower(x: nat, d: nat, e: nat, v: nat)
    requires d < 10 && v < (x * 10 + d + 1) * e
    ensures v < (x + 1) * (10 * e)
  {
    MulLeft(e, x * 10 + d + 1, (x + 1) * 10);
    assert (x + 1) * (10 * e) == ((x + 1) * 10) * e;
  }

  lemma TenBelow(bits: nat, k: nat)
    requires Width(bits) && k == Digits10(bits)
    ensures Exp(10, k) <= Modulus(bits)
  {
    var a, p := 39, 1000000000000000000000000000000000000000;
    Ten39(a);
    ExpDouble(10, a, p);
    ExpDouble(10, 2 * a, p * p);
    if bits == 256 {
      assert k + 1 == 2 * a;
      assert Exp(10, k + 1) == 10 * Exp(10, k);
    } else if bits == 512 {
      assert k + 2 == 2 * (2 * a);
      assert Exp(10, k + 2) == 10 * Exp(10, k + 1) && Exp(10, k + 1) == 10 * Exp(10, k);
    }
  }

  /** An overflow is reported exactly for too many digits or a wrapped value below the last digit. */
  lemma OverflowCaught(s: string, bits: nat)
    requires Width(bits) && AllDec(s) && 0 < |s| <= Digits10(bits) + 1
    ensures Parse(s, bits) == Err(Overflow)
            <==> DecFrom(0, s) >= Modulus(bits) && DecFrom(0, s) % Modulus(bits) < DecDigitValue(s[|s| - 1])
    ensures Parse(s, bits).Ok? && Parse(s, bits).value != DecFrom(0, s)
            <==> DecFrom(0, s) >= Modulus(bits) && DecFrom(0, s) % Modulus(bits) >= DecDigitValue(s[|s| - 1])
  {
    hide Parse, DecFrom, Modulus;
    DecimalOutcome(s, bits);
    var v, m := DecFrom(0, s), Modulus(bits);
    assert s == s[..|s| - 1] + [s[|s| - 1]];
    DecFromSnoc(0, s[..|s| - 1], s[|s| - 1]);
    if v < m { DivModUnique(v, m, 0, v); }
  }

  /** One overflow that is not caught: `2^128 + 10` parses as 10. */
  lemma MissedOverflow(x: nat)
    requires x == TWO128 + 10
    ensures AllDec(Digits(x, 10)) && Parse(Digits(x, 10), 128) == Ok(10)
  {
    var k := x / 10;
    PrintedDigits(k);
    PrintedDigits(x);
    TenPowers(128, 39);
    DigitsShort(k, 10, 38);
    NoPrefix(Digits(x, 10), 128);
    MissedLastDigit(Digits(k, 10), [DigitChar(x % 10)], k);
  }

  lemma MissedLastDigit(p: string, c: string, k: nat)
    requires k * 10 + 6 == TWO128 + 10 && |c| == 1 && c[0] == '6'
    requires AllDec(p) && DecFrom(0, p) == k && |p| <= 38
    ensures ParseDec(p + c, 0, 0, 128) == Ok(10)
  {
    ParseDecPrefix(0, 0, p, c, 128);
    DivModUnique(k * 10 + 6, TWO128, 1, 10);
  }

  // ----- Hexadecimal round trip -----

  predicate AllHex(s: string) {
    forall i :: 0 <= i < |s| ==> '0' <= s[i] <= '9' || 'a' <= s[i] <= 'f'
  }

  function HexFrom(x: nat, s: string): nat
    requires AllHex(s)
    decreases |s|
  {
    if s == "" then x else HexFrom(x * 16 + HexDigit(s[0]).value, s[1..])
  }

  lemma {:induction false} HexFromSnoc(x: nat, s: string, c: char)
    requires AllHex(s) && HexDigit(c).Ok? && AllHex([c])
    ensures AllHex(s + [c]) && HexFrom(x, s + [c]) == HexFrom(x, s) * 16 + HexDigit(c).value
    decreases |s|
  {
    assert c == [c][0];
    if s == "" {
      assert s + [c] == [c];
      assert [c][1..] == "";
    } else {
      assert (s + [c])[1..] == s[1..] + [c];
      HexFromSnoc(x * 16 + HexDigit(s[0]).value, s[1..], c);
    }
  }

  lemma HexModulus(bits: nat)
    requires Width(bits)
    ensures Exp(16, bits / 4) == Modulus(bits)
  {
    assert Exp(16, 2) == 0x100;
    ExpDouble(16, 2, 0x100);
    ExpDouble(16, 2 * 2, 0x1_0000);
    ExpDouble(16, 2 * (2 * 2), 0x1_0000_0000);
    ExpDouble(16, 16, TWO64);
    ExpDouble(16, 2 * 16, TWO128);
    ExpDouble(16, 2 * (2 * 16), TWO256);
  }

  /** A state that has read `n` digits holds a value below `16^n`, so the next shift loses nothing. */
  lemma {:induction false} ParseHexExact(n: nat, x: nat, s: string, bits: nat)
    requires Width(bits) && AllHex(s) && n + |s| <= bits / 4 && x < Exp(16, n)
    ensures ParseHex(s, n, x, bits) == Ok(HexFrom(x, s))
    decreases |s|
  {
    if s != "" {
      ExpMonotone(16, n + 1, bits / 4);
      HexModulus(bits);
      DivModUnique(x * 16, Modulus(bits), 0, x * 16);
      ParseHexExact(n + 1, x * 16 + HexDigit(s[0]).value, s[1..], bits);
    }
  }

  lemma {:induction false} PrintedHexDigits(x: nat)
    ensures AllHex(Digits(x, 16)) && HexFrom(0, Digits(x, 16)) == x
  {
    assert AllHex("") && HexFrom(0, "") == 0;
    hide HexFrom, AllHex, DigitChar;
    if x >= 16 {
      PrintedHexDigits(x / 16);
      AppendHex(Digits(x / 16, 16), x / 16, x % 16);
    } else {
      AppendHex("", 0, x);
      assert "" + [DigitChar(x)] == [DigitChar(x)];
    }
  }

  lemma AppendHex(s: string, x: nat, v: nat)
    requires v < 16 && AllHex(s) && HexFrom(0, s) == x
    ensures AllHex(s + [DigitChar(v)]) && HexFrom(0, s + [DigitChar(v)]) == x * 16 + v
  {
    HexCharacter(v);
    hide HexFrom, AllHex, DigitChar, HexDigit;
    HexFromSnoc(0, s, DigitChar(v));
  }

  lemma HexCharacter(v: nat)
    requires v < 16
    ensures AllHex([DigitChar(v)]) && HexDigit(DigitChar(v)) == Ok(v)
  {
  }

  lemma ParsePrefixedHex(d: string, bits: nat)
    requires Width(bits) && AllHex(d) && |d| <= bits / 4
    ensures Parse("0x" + d, bits) == Ok(HexFrom(0, d))
  {
    assert ("0x" + d)[2..] == d;
    ParseHexExact(0, 0, d, bits);
  }

  /** Printing in hexadecimal, with the prefix, and parsing gives the number back. */
  lemma HexRoundTrip(x: nat, bits: nat)
    requires Width(bits) && x < Modulus(bits)
    ensures Parse("0x" + Digits(x, 16), bits) == Ok(x)
  {
    PrintedHexDigits(x);
    HexModulus(bits);
    DigitsShort(x, 16, bits / 4);
    ParsePrefixedHex(Digits(x, 16), bits);
  }

  // ----- Other text -----

  /** Within the digit count, a character that is no digit is refused where it stands, and a NUL ends the
      number; what follows does not matter. */
  lemma DecimalStops(b: string, c: char, rest: string, bits: nat)
    requires Width(bits) && AllDec(b) && |b| <= Digits10(bits) && DecFrom(0, b) < Modulus(bits)
    requires !('0' <= c <= '9') && !(b == "0" && c == 'x')
    ensures Parse(b + [c] + rest, bits) == if c == '\0' then Ok(DecFrom(0, b)) else Err(InvalidDigit)
  {
    hide DecFrom, Modulus, Digits10;
    var t := [c] + rest;
    assert b + [c] + rest == b + t && t[0] == c;
    NotPrefixed(b, t, bits);
    ParseDecPrefix(0, 0, b, t, bits);
  }

  lemma NotPrefixed(b: string, t: string, bits: nat)
    requires Width(bits) && AllDec(b) && t != "" && !(b == "0" && t[0] == 'x') && !('0' <= t[0] <= '9')
    ensures Parse(b + t, bits) == ParseDec(b + t, 0, 0, bits)
  {
    if |b| >= 2 {
      assert (b + t)[1] == b[1];
    } else if |b| == 1 {
      assert (b + t)[1] == t[0] && b == [b[0]];
    } else {
      assert b + t == t;
    }
  }

  function LowerHex(c: char): char {
    if 'A' <= c <= 'F' then (c as int + 32) as char else c
  }

  function LowerCase(s: string): (r: string)
    ensures |r| == |s| && forall i :: 0 <= i < |s| ==> r[i] == LowerHex(s[i])
  {
    if s == "" then "" else [LowerHex(s[0])] + LowerCase(s[1..])
  }

  /** Capital letters are hexadecimal digits like small ones, also in mixed text and before an error. */
  lemma CaseDoesNotMatter(s: string, bits: nat)
    requires Width(bits)
    ensures Parse("0x" + s, bits) == Parse("0x" + LowerCase(s), bits)
  {
    assert ("0x" + s)[2..] == s && ("0x" + LowerCase(s))[2..] == LowerCase(s);
    SameHex(s, 0, 0, bits);
  }

  lemma {:induction false} SameHex(s: string, n: nat, x: nat, bits: nat)
    requires Width(bits)
    ensures ParseHex(s, n, x, bits) == ParseHex(LowerCase(s), n, x, bits)
    decreases |s|
  {
    if s != "" && HexDigit(s[0]).Ok? {
      assert LowerCase(s)[1..] == LowerCase(s[1..]);
      SameHex(s[1..], n + 1, (x * 16) % Modulus(bits) + HexDigit(s[0]).value, bits);
    }
  }

  /** Hexadecimal text is refused for more digits than the width has, and where it has no digit. */
  lemma HexRefused(b: string, c: char, rest: string, bits: nat)
    requires Width(bits) && AllHex(b) && |b| <= bits / 4 && c != '\0'
    ensures |b| == bits / 4 ==> Parse("0x" + b + [c] + rest, bits) == Err(Overflow)
    ensures |b| < bits / 4 && !('0' <= c <= '9' || 'a' <= c <= 'f' || 'A' <= c <= 'F') ==>
              Parse("0x" + b + [c] + rest, bits) == Err(InvalidDigit)
  {
    var t := [c] + rest;
    assert ("0x" + b + [c] + rest)[2..] == b + t;
    var _ := HexPrefix(b, t, 0, 0, bits);
  }

  /** Reading digits within the count never fails. */
  lemma {:induction false} HexPrefix(b: string, t: string, n: nat, x: nat, bits: nat) returns (y: nat)
    requires Width(bits) && AllHex(b) && n + |b| <= bits / 4
    ensures ParseHex(b + t, n, x, bits) == ParseHex(t, n + |b|, y, bits)
    decreases |b|
  {
    if b == "" {
      assert b + t == t;
      y := x;
    } else {
      assert (b + t)[1..] == b[1..] + t;
      y := HexPrefix(b[1..], t, n + 1, (x * 16) % Modulus(bits) + HexDigit(b[0]).value, bits);
    }
  }

  // ----- Printing in any base -----

  /** What a printed character stands for: digits, then small letters. */
  function CharValue(c: char): nat {
    if '0' <= c <= '9' then c as int - '0' as int
    else if 'a' <= c <= 'z' then c as int - 'a' as int + 10
    else 36
  }

  /** The number that a text stands for in a base. */
  function ValueOf(s: string, base: nat): nat {
    if s == "" then 0 else ValueOf(s[..|s| - 1], base) * base + CharValue(s[|s| - 1])
  }

  /** In every base the printed characters are digits of the base, stand for the number, and do not start
      with a zero unless the number is zero. */
  lemma {:induction false} PrintedValue(x: nat, base: nat)
    requires 2 <= base <= 36
    ensures var s := Digits(x, base);
            && ValueOf(s, base) == x && s != "" && (s[0] == '0' <==> x == 0)
            && forall i :: 0 <= i < |s| ==> CharValue(s[i]) < base
  {
    if x >= base {
      var q, r := DivMod(x, base);
      SplitDigit(x, base);
      MoreThanOneDigit(x, base, q, r);
      PrintedValue(q, base);
      var s := Digits(q, base);
      assert (s + [DigitChar(r)])[..|s|] == s;
      LastValue(s, base, q, r);
    } else {
      LastValue("", base, 0, x);
      assert "" + [DigitChar(x)] == [DigitChar(x)];
    }
  }

  lemma MoreThanOneDigit(x: nat, base: nat, q: nat, r: nat)
    requires 2 <= base <= x && x == base * q + r && r < base
    ensures q > 0
  {
    assert q == 0 ==> base * q == 0;
  }

  lemma LastValue(s: string, base: nat, q: nat, r: nat)
    requires 2 <= base <= 36 && r < base && ValueOf(s, base) == q
    ensures ValueOf(s + [DigitChar(r)], base) == base * q + r && CharValue(DigitChar(r)) == r
  {
    assert (s + [DigitChar(r)])[..|s|] == s;
    CharOfDigit(r);
  }

  lemma CharOfDigit(r: nat)
    requires r < 36
    ensures CharValue(DigitChar(r)) == r
  {
  }
}
