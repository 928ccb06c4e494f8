/** Decoding inverts encoding, encodings are self-delimiting, and what packs add to that. */
module RlpRoundTrip {
  import opened Words
  import opened Rlp

  // ----- Integers and headers -----

  lemma {:induction false} MinimalValue(n: nat)
    ensures FromBE(Minimal(n)) == n
    ensures n != 0 ==> Minimal(n) != [] && Minimal(n)[0] != 0
  {
    if n != 0 {
      MinimalValue(n / 0x100);
      var m := Minimal(n);
      assert m[..|m| - 1] == Minimal(n / 0x100);
    }
  }

  lemma {:induction false} MinimalLength(n: nat, k: nat)
    requires n < Exp(0x100, k)
    ensures |Minimal(n)| <= k
  {
    if n != 0 {
      assert Exp(0x100, 0) == 1;
      MinimalLength(n / 0x100, k - 1);
    }
  }

  lemma LengthBytes(n: nat)
    requires 0 < n < TWO64
    ensures 1 <= |Minimal(n)| <= 8
  {
    Power256Bytes(32);
    MinimalLength(n, 8);
    MinimalValue(n);
  }

  /** The first byte of a header names its kind and length; the three ranges of the format. */
  lemma HeaderRange(base: nat, len: nat)
    requires base == 0x80 || base == 0xc0
    requires len < TWO64
    ensures var h := Header(base, len);
            |h| >= 1 && (len <= 55 ==> |h| == 1 && h[0] == base + len)
            && (len > 55 ==>
                  base + 56 <= h[0] <= base + 63 && h[0] == base + 55 + |Minimal(len)| && h[1..] == Minimal(len))
  {
    if len > 55 { LengthBytes(len); }
  }

  /** Reading a header gives back the kind and the payload length, and stops at the payload. */
  lemma HeaderRoundTrip(base: nat, len: nat, rest: seq<Byte>, extra: nat)
    requires base == 0x80 || base == 0xc0
    requires len < TWO64
    ensures DecodeLength(Header(base, len) + rest, |Header(base, len)| + extra)
            == Got((if base == 0x80 then Single else Multiple, len), rest, extra)
  {
    hide FromBE, LongLength, Minimal;
    HeaderRange(base, len);
    var h := Header(base, len);
    hide Header;
    var d := h + rest;
    assert d[0] == h[0] && d[1..] == h[1..] + rest;
    if len > 55 {
      MinimalValue(len);
      LengthRead(if base == 0x80 then Single else Multiple, Minimal(len), rest, |Minimal(len)| + extra);
    } else {
      assert h[1..] + rest == rest;
    }
  }

  lemma LengthRead(arity: Arity, l: seq<Byte>, rest: seq<Byte>, size: nat)
    ensures LongLength(arity, l + rest, size, |l|)
            == if size < |l| then Fail(ShortLength) else Got((arity, FromBE(l)), rest, size - |l|)
  {
    hide FromBE;
    assert (l + rest)[..|l|] == l && (l + rest)[|l|..] == rest;
  }

  /** A string encoding is read back as a single item of the right length, pointing at the string. */
  lemma StringRoundTrip(bs: seq<Byte>, rest: seq<Byte>, extra: nat)
    requires |bs| < TWO64
    ensures DecodeLength(EncodeString(bs) + rest, |EncodeString(bs)| + extra)
            == Got((Single, |bs|), bs + rest, |bs| + extra)
  {
    if |bs| == 1 && bs[0] <= 0x7f {
    } else {
      assert EncodeString(bs) + rest == Header(0x80, |bs|) + (bs + rest);
      HeaderRoundTrip(0x80, |bs|, bs + rest, |bs| + extra);
    }
  }

  lemma EncodingNotEmpty(v: Value)
    ensures |Encode(v)| > 0
  {
  }

  // ----- The round trip -----

  /** Decoding an encoded value of the schema returns the value, whatever follows it, and leaves
      the pointer and the size exactly behind it. */
  lemma {:induction false} RoundTrip(s: Schema, v: Value, rest: seq<Byte>, extra: nat)
    requires HasType(v, s) && |Encode(v)| + extra < TWO64
    ensures DecodeImpl(s, Encode(v) + rest, |Encode(v)| + extra) == Got(v, rest, extra)
    decreases v, 2
  {
    hide DecodeLength, DecodeTuple, FromBytes, Header, EncodeString;
    if v.Tup? {
      var p := EncodeAll(v.items);
      assert Encode(v) + rest == Header(0xc0, |p|) + (p + rest);
      HeaderRoundTrip(0xc0, |p|, p + rest, |p| + extra);
      TupleRoundTrip(s.elems, v.items, rest, 0);
    } else {
      var p := Payload(v);
      StringRoundTrip(p, rest, extra);
      PayloadRoundTrip(s, v, rest);
    }
  }

  /** The byte string a non-tuple value is turned into before its header. */
  function Payload(v: Value): (p: seq<Byte>)
    requires !v.Tup?
    ensures Encode(v) == EncodeString(p) && |p| <= |Encode(v)|
  {
    match v
    case Num(n) => Minimal(n)
    case Str(bs) => bs
    case Vec(items) => EncodeList(EncodeAll(items))
  }

  /** A value of a narrow type survives the cast. */
  lemma NarrowFits(n: nat, k: nat)
    requires (k == 1 || k == 2 || k == 4) && n < Exp(0x100, k)
    ensures n < TWO64 && Narrow(n, k) == n
  {
    ExpMonotone(0x100, k, 8);
    Power256Bytes(32);
    DivModUnique(n, Exp(0x100, k), 0, n);
  }

  lemma {:induction false} PayloadRoundTrip(s: Schema, v: Value, rest: seq<Byte>)
    requires HasType(v, s) && !v.Tup? && |Payload(v)| < TWO64
    ensures FromBytes(s, Payload(v) + rest, |Payload(v)|) == Got(v, rest, 0)
    decreases v, 1
  {
    hide DecodeLength, DecodeVector, DecodeArray, Header, EncodeString;
    var p := Payload(v);
    assert (p + rest)[..|p|] == p && (p + rest)[|p|..] == rest;
    match v
    case Num(n) =>
      NumberRoundTrip(s, n, rest);
    case Str(bs) =>
    case Vec(items) =>
      var c := EncodeAll(items);
      assert p + rest == Header(0xc0, |c|) + (c + rest);
      HeaderRoundTrip(0xc0, |c|, c + rest, |c|);
      if s.VectorOf? {
        VectorRoundTrip(s.elem, items, rest);
      } else {
        ArrayRoundTrip(s.elem, items, rest);
      }
  }

  lemma NumberRoundTrip(s: Schema, n: nat, rest: seq<Byte>)
    requires HasType(Num(n), s)
    ensures FromBytes(s, Minimal(n) + rest, |Minimal(n)|) == Got(Num(n), rest, 0)
  {
    var p := Minimal(n);
    assert (p + rest)[..|p|] == p && (p + rest)[|p|..] == rest;
    MinimalValue(n);
    NumberFits(s, n);
    hide Minimal, FromBE, Narrow, HasType;
  }

  /** A number of a type has no more bytes than its decoder takes, and the final cast keeps it. */
  lemma NumberFits(s: Schema, n: nat)
    requires HasType(Num(n), s)
    ensures s.U256Type? || s.U64Type? || s.UIntType?
    ensures |Minimal(n)| <= if s.U256Type? then 32 else 8
    ensures s.UIntType? ==> Narrow(n, s.bytes) == n
  {
    hide Minimal;
    Power256Bytes(32);
    if s.UIntType? { NarrowFits(n, s.bytes); }
    hide Exp;
    MinimalLength(n, if s.U256Type? then 32 else 8);
  }

  lemma {:induction false} VectorRoundTrip(e: Schema, vs: seq<Value>, rest: seq<Byte>)
    requires (forall i :: 0 <= i < |vs| ==> HasType(vs[i], e)) && |EncodeAll(vs)| < TWO64
    ensures DecodeVector(e, EncodeAll(vs) + rest, |EncodeAll(vs)|) == Got(vs, rest, 0)
    decreases vs, 1
  {
    hide DecodeImpl, Encode;
    if vs == [] {
      assert EncodeAll(vs) + rest == rest;
    } else {
      var tail := EncodeAll(vs[1..]);
      assert EncodeAll(vs) + rest == Encode(vs[0]) + (tail + rest);
      EncodingNotEmpty(vs[0]);
      RoundTrip(e, vs[0], tail + rest, |tail|);
      VectorRoundTrip(e, vs[1..], rest);
      assert [vs[0]] + vs[1..] == vs;
    }
  }

  lemma {:induction false} ArrayRoundTrip(e: Schema, vs: seq<Value>, rest: seq<Byte>)
    requires (forall i :: 0 <= i < |vs| ==> HasType(vs[i], e)) && |EncodeAll(vs)| < TWO64
    ensures DecodeArray(e, |vs|, EncodeAll(vs) + rest, |EncodeAll(vs)|) == Got(vs, rest, 0)
    decreases vs, 1
  {
    hide DecodeImpl, Encode;
    if vs == [] {
      assert EncodeAll(vs) + rest == rest;
    } else {
      var tail := EncodeAll(vs[1..]);
      assert EncodeAll(vs) + rest == Encode(vs[0]) + (tail + rest);
      RoundTrip(e, vs[0], tail + rest, |tail|);
      ArrayRoundTrip(e, vs[1..], rest);
      assert [vs[0]] + vs[1..] == vs;
    }
  }

  lemma {:induction false} TupleRoundTrip(ss: seq<Schema>, vs: seq<Value>, rest: seq<Byte>, extra: nat)
    requires HasTypes(vs, ss) && |EncodeAll(vs)| + extra < TWO64
    ensures DecodeTuple(ss, EncodeAll(vs) + rest, |EncodeAll(vs)| + extra) == Got(vs, rest, extra)
    decreases vs, 1
  {
    hide DecodeImpl, Encode;
    if vs == [] {
      assert EncodeAll(vs) + rest == rest;
    } else {
      var tail := EncodeAll(vs[1..]);
      assert EncodeAll(vs) + rest == Encode(vs[0]) + (tail + rest);
      RoundTrip(ss[0], vs[0], tail + rest, |tail| + extra);
      TupleRoundTrip(ss[1..], vs[1..], rest, extra);
      assert [vs[0]] + vs[1..] == vs;
    }
  }

  /** `decode<T>(encode(v)) == v`, with the input consumed exactly. */
  lemma DecodeInvertsEncode(s: Schema, v: Value)
    requires HasType(v, s) && |Encode(v)| < TWO64
    ensures DecodePack([s], EncodePack([v])) == Got([v], [], 0)
  {
    hide DecodeImpl, Encode;
    RoundTrip(s, v, [], 0);
    assert Encode(v) + [] == Encode(v);
  }

  /** Encodings delimit themselves: what follows cannot change where a value ends or what it is. */
  lemma SelfDelimiting(s: Schema, a: Value, b: Value, x: seq<Byte>, y: seq<Byte>)
    requires HasType(a, s) && HasType(b, s) && |Encode(a)| < TWO64 && |Encode(b)| < TWO64
    requires Encode(a) + x == Encode(b) + y
    ensures a == b && x == y
  {
    var n := if |Encode(a)| < |Encode(b)| then |Encode(b)| else |Encode(a)|;
    var d := Encode(a) + x;
    ReadsBack(s, a, x, d, n);
    ReadsBack(s, b, y, d, n);
  }

  lemma ReadsBack(s: Schema, v: Value, x: seq<Byte>, d: seq<Byte>, n: nat)
    requires HasType(v, s) && |Encode(v)| <= n < TWO64 && d == Encode(v) + x
    ensures DecodeImpl(s, d, n) == Got(v, x, n - |Encode(v)|)
  {
    hide *;
    RoundTrip(s, v, x, n - |Encode(v)|);
  }
}
