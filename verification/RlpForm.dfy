/** The form of encodings beyond the round trip: they are the shortest the decoder reads, every kind of value
    has its kind of header, and what is decoded for a schema is a value of it. */
module RlpForm {
  import opened Words
  import opened Rlp
  import opened RlpRoundTrip

  // ----- Shortest forms -----

  /** Every byte string that the decoder reads as the single item `bs` is at least as long as its encoding. */
  lemma StringShortest(bs: seq<Byte>, e: seq<Byte>)
    requires |bs| < TWO64 && DecodeLength(e, |e|) == Got((Single, |bs|), bs, |bs|)
    ensures |EncodeString(bs)| <= |e|
  {
    if e[0] > 0x7f && e[0] > 0xb7 { LengthFits(e[1..], e[0] - 0xb7, |bs|); }
  }

  /** The same for lists. */
  lemma ListShortest(payload: seq<Byte>, e: seq<Byte>)
    requires |payload| < TWO64 && DecodeLength(e, |e|) == Got((Multiple, |payload|), payload, |payload|)
    ensures |EncodeList(payload)| <= |e|
  {
    if e[0] > 0xf7 { LengthFits(e[1..], e[0] - 0xf7, |payload|); }
  }

  /** A length read from `n` bytes has at most `n` bytes without leading zeros. */
  lemma LengthFits(d: seq<Byte>, n: nat, len: nat)
    requires n <= |d| && FromBE(d[..n]) == len
    ensures |Minimal(len)| <= n
  {
    FromBEBound(d[..n]);
    MinimalLength(len, n);
  }

  /** So a byte up to 0x7f, zero included, is its own encoding, and nothing else of one byte is. */
  lemma SingleBytes(bs: seq<Byte>)
    requires |bs| < TWO64
    ensures |Encode(Str(bs))| == 1 <==> bs == [] || (|bs| == 1 && bs[0] <= 0x7f)
    ensures |bs| == 1 && bs[0] <= 0x7f ==> Encode(Str(bs)) == bs
    ensures bs == [] ==> Encode(Str(bs)) == [0x80]
  {
    if |bs| == 1 && bs[0] <= 0x7f {
      assert DecodeLength(bs, 1) == Got((Single, 1), bs, 1);
      StringShortest(bs, bs);
    }
    HeaderRange(0x80, |bs|);
  }

  // ----- Kinds -----

  /** The kind of header in front of an encoding: a tuple is a list, everything else a byte string. */
  lemma Kinds(v: Value)
    requires |Encode(v)| < TWO64
    ensures DecodeLength(Encode(v), |Encode(v)|).Got?
    ensures DecodeLength(Encode(v), |Encode(v)|).value.0 == if v.Tup? then Multiple else Single
  {
    hide DecodeLength, Header, EncodeString;
    assert Encode(v) + [] == Encode(v);
    if v.Tup? {
      var p := EncodeAll(v.items);
      HeaderRoundTrip(0xc0, |p|, p, |p|);
    } else {
      StringRoundTrip(Payload(v), [], 0);
    }
  }

  /** Inside the byte string of a vector is the list of its elements, one after the other. */
  lemma VectorInside(items: seq<Value>)
    requires |Encode(Vec(items))| < TWO64
    ensures var d := DecodeLength(Encode(Vec(items)), |Encode(Vec(items))|);
            var c := EncodeAll(items);
            d.Got? && DecodeLength(d.rest, d.size) == Got((Multiple, |c|), c, |c|)
  {
    hide DecodeLength, Header, EncodeString;
    var p := Payload(Vec(items));
    var c := EncodeAll(items);
    assert Encode(Vec(items)) + [] == Encode(Vec(items)) && p + [] == p;
    StringRoundTrip(p, [], 0);
    HeaderRoundTrip(0xc0, |c|, c, |c|);
  }

  /** The number zero is the empty string, and a number below 0x80 its own byte. */
  lemma SmallNumbers(n: nat)
    requires n < 0x80
    ensures Encode(Num(n)) == if n == 0 then [0x80] else [n]
  {
    assert Minimal(n) == if n == 0 then [] else [n];
  }

  // ----- Decoded values -----

  /** The unsigned types are those of 1, 2 and 4 bytes. */
  predicate Proper(s: Schema) {
    match s
    case UIntType(k) => k == 1 || k == 2 || k == 4
    case VectorOf(e) => Proper(e)
    case ArrayOf(e, _) => Proper(e)
    case TupleOf(ss) => forall i :: 0 <= i < |ss| ==> Proper(ss[i])
    case _ => true
  }

  /** Whatever the input, a decoded value is a value of the schema. */
  lemma {:induction false} DecodedHasType(s: Schema, d: seq<Byte>, size: nat)
    requires Proper(s)
    ensures var r := DecodeImpl(s, d, size); r.Got? ==> HasType(r.value, s)
    decreases s, 1, 0
  {
    hide DecodeLength, FromBytes, DecodeTuple;
    var l := DecodeLength(d, size);
    if l.Got? {
      if s.TupleOf? { TupleHasTypes(s.elems, l.rest, l.value.1); }
      else { PayloadHasType(s, l.rest, l.value.1); }
    }
  }

  lemma {:induction false} PayloadHasType(s: Schema, d: seq<Byte>, size: nat)
    requires Proper(s) && !s.TupleOf?
    ensures var r := FromBytes(s, d, size); r.Got? ==> HasType(r.value, s)
    decreases s, 0, 0
  {
    hide DecodeLength, DecodeVector, DecodeArray;
    match s
    case UIntType(k) => NarrowBelow(FromBE(d[..if size <= |d| then size else 0]), k);
    case U64Type => ShortNumber(d, size, 8);
    case U256Type => ShortNumber(d, size, 32);
    case BytesType =>
    case FixedBytes(n) =>
    case VectorOf(e) =>
      var l := DecodeLength(d, size);
      if l.Got? { VectorHasTypes(e, l.rest, l.value.1); }
    case ArrayOf(e, n) =>
      var l := DecodeLength(d, size);
      if l.Got? { ArrayHasTypes(e, n, l.rest, l.size); }
  }

  lemma NarrowBelow(n: nat, k: nat)
    ensures Narrow(n, k) < Exp(0x100, k)
  {
    ExpPositive(0x100, k);
  }

  lemma ShortNumber(d: seq<Byte>, size: nat, k: nat)
    requires k == 8 || k == 32
    ensures size <= k && size <= |d| ==> FromBE(d[..size]) < if k == 8 then TWO64 else TWO256
  {
    if size <= k && size <= |d| {
      FromBEBound(d[..size]);
      ExpMonotone(0x100, size, k);
      Power256Bytes(32);
    }
  }

  lemma {:induction false} VectorHasTypes(e: Schema, d: seq<Byte>, contained: nat)
    requires Proper(e)
    ensures var r := DecodeVector(e, d, contained);
            r.Got? ==> forall i :: 0 <= i < |r.value| ==> HasType(r.value[i], e)
    decreases e, 2, |d|, contained
  {
    hide DecodeImpl, HasType;
    if contained != 0 {
      DecodedHasType(e, d, contained);
      var v := DecodeImpl(e, d, contained);
      if v.Got? {
        VectorHasTypes(e, v.rest, v.size);
        var vs := DecodeVector(e, v.rest, v.size);
        if vs.Got? { AllOf(e, v.value, vs.value); }
      }
    }
  }

  lemma AllOf(e: Schema, v: Value, vs: seq<Value>)
    requires HasType(v, e) && forall i :: 0 <= i < |vs| ==> HasType(vs[i], e)
    ensures forall i :: 0 <= i < |[v] + vs| ==> HasType(([v] + vs)[i], e)
  {
    hide HasType;
  }

  lemma {:induction false} ArrayHasTypes(e: Schema, n: nat, d: seq<Byte>, size: nat)
    requires Proper(e)
    ensures var r := DecodeArray(e, n, d, size);
            r.Got? ==> |r.value| == n && forall i :: 0 <= i < |r.value| ==> HasType(r.value[i], e)
    decreases e, 2, n
  {
    hide DecodeImpl, HasType;
    if n != 0 {
      DecodedHasType(e, d, size);
      var v := DecodeImpl(e, d, size);
      if v.Got? {
        ArrayHasTypes(e, n - 1, v.rest, v.size);
        var vs := DecodeArray(e, n - 1, v.rest, v.size);
        if vs.Got? { AllOf(e, v.value, vs.value); }
      }
    }
  }

  lemma {:induction false} TupleHasTypes(ss: seq<Schema>, d: seq<Byte>, size: nat)
    requires forall i :: 0 <= i < |ss| ==> Proper(ss[i])
    ensures var r := DecodeTuple(ss, d, size); r.Got? ==> HasTypes(r.value, ss)
    decreases ss, 2, 0
  {
    hide DecodeImpl, HasType;
    if ss != [] {
      DecodedHasType(ss[0], d, size);
      var v := DecodeImpl(ss[0], d, size);
      if v.Got? { TupleHasTypes(ss[1..], v.rest, v.size); }
    }
  }

  // ----- What the decoder accepts -----

  /** A header `b` with its length in `l` is read whatever the length, with leading zeros, too; a size too
      small for the length bytes is an error. */
  lemma LongHeaders(b: Byte, l: seq<Byte>, rest: seq<Byte>, size: nat)
    requires (0xb8 <= b <= 0xbf && |l| == b - 0xb7) || (0xf8 <= b && |l| == b - 0xf7)
    requires size > 0
    ensures DecodeLength([b] + (l + rest), size)
            == if size <= |l| then Fail(ShortLength)
               else Got((if b <= 0xbf then Single else Multiple, FromBE(l)), rest, size - 1 - |l|)
  {
    hide FromBE, LongLength;
    var d := [b] + (l + rest);
    assert d[1..] == l + rest && d[0] == b;
    LengthRead(if b <= 0xbf then Single else Multiple, l, rest, size - 1);
  }

  /** An integer is read from any byte string that is short enough, with leading zeros, too; a narrow type
      keeps the low bytes, and a longer string is an error. */
  lemma IntegersRead(s: Schema, bs: seq<Byte>, rest: seq<Byte>, extra: nat)
    requires s.UIntType? || s.U64Type? || s.U256Type?
    requires |bs| < TWO64 && extra < TWO64
    ensures s.UIntType? ==> Exp(0x100, s.bytes) > 0
    ensures DecodeImpl(s, EncodeString(bs) + rest, |EncodeString(bs)| + extra)
            == if |bs| > (if s.U256Type? then 32 else 8) then Fail(TooManyBytes)
               else Got(Num(if s.UIntType? then FromBE(bs) % Exp(0x100, s.bytes) else FromBE(bs)), rest, extra)
  {
    hide DecodeLength, EncodeString, FromBE, Exp;
    if s.UIntType? { ExpPositive(0x100, s.bytes); }
    StringRoundTrip(bs, rest, extra);
    assert (bs + rest)[..|bs|] == bs && (bs + rest)[|bs|..] == rest;
    LeftOver(|bs| + extra, |bs|, extra);
  }

  /** A byte array of a fixed size is read from byte strings of that size only. */
  lemma FixedSizes(n: nat, bs: seq<Byte>, rest: seq<Byte>, extra: nat)
    requires |bs| < TWO64 && extra < TWO64
    ensures DecodeImpl(FixedBytes(n), EncodeString(bs) + rest, |EncodeString(bs)| + extra)
            == if |bs| != n then Fail(WrongArraySize) else Got(Str(bs), rest, extra)
  {
    hide DecodeLength, EncodeString;
    StringRoundTrip(bs, rest, extra);
    assert (bs + rest)[..|bs|] == bs && (bs + rest)[|bs|..] == rest;
    LeftOver(|bs| + extra, |bs|, extra);
  }

  // ----- Errors -----

  /** Bytes after the encoding are left over, and nothing at all is not a value. */
  lemma TrailingBytes(s: Schema, v: Value, rest: seq<Byte>)
    requires HasType(v, s) && rest != [] && |Encode(v)| + |rest| < TWO64
    ensures DecodePack([s], Encode(v) + rest) == Fail(Leftover) && DecodePack([s], []) == Fail(EmptyData)
  {
    hide DecodeImpl, Encode;
    RoundTrip(s, v, rest, |rest|);
    NoData(s);
  }

  lemma NoData(s: Schema)
    ensures DecodeImpl(s, [], 0) == Fail(EmptyData)
  {
  }

  /** Several arguments, too, never decode from more than their encoding. */
  lemma TrailingPack(ss: seq<Schema>, vs: seq<Value>, rest: seq<Byte>)
    requires HasTypes(vs, ss) && |ss| != 1 && rest != [] && |EncodePack(vs)| + |rest| < TWO64
    ensures DecodePack(ss, EncodePack(vs) + rest).Fail?
  {
    hide DecodeMultiple, DecodeLength, Header, Encode;
    var p := EncodeAll(vs);
    assert EncodePack(vs) + rest == Header(0xc0, |p|) + (p + rest);
    HeaderRoundTrip(0xc0, |p|, p + rest, |p| + |rest|);
    LeftOver(|p| + |rest|, |p|, |rest|);
  }

  lemma LeftOver(size: nat, contained: nat, more: nat)
    requires size == contained + more && more < TWO64
    ensures Minus(size, contained) == more
  {
  }

  /** A list does not decode as a byte string, nor a byte string as a tuple. */
  lemma KindMismatch(s: Schema, v: Value)
    requires |Encode(v)| < TWO64 && v.Tup? != s.TupleOf?
    ensures DecodeImpl(s, Encode(v), |Encode(v)|) == Fail(if s.TupleOf? then NotList else NotSingle)
  {
    hide Encode, DecodeLength, FromBytes, DecodeTuple;
    Kinds(v);
  }
}
