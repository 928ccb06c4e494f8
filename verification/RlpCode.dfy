/** The encoder and decoder as the code runs them: loops over bytes and elements, byte vectors that
    grow in place, a data pointer that moves. Every method is proved to do what Rlp specifies. */
module RlpCode {
  import opened Words
  import opened Rlp
  import opened RlpRoundTrip

  // ----- Encoding -----

  /** The bytes of a 64-bit integer from the top, skipping zeros until the first other byte. */
  method ToByteStringU64(n: U64) returns (bs: seq<Byte>)
    ensures bs == Minimal(n)
  {
    var started := false;
    bs := [];
    Power256Bytes(32);
    DivModUnique(n, TWO64, 0, n);
    for byteIndex := 0 to 8
      invariant Exp(0x100, 8 - byteIndex) > 0
      invariant bs == Minimal(n / Exp(0x100, 8 - byteIndex))
      invariant started <==> bs != []
    {
      TopQuotient(n, 7 - byteIndex);
      MinimalStep(n / Exp(0x100, 7 - byteIndex), n / Exp(0x100, 8 - byteIndex));
      var currentByte := (n / Exp(0x100, 7 - byteIndex)) % 0x100;
      if started || currentByte != 0 {
        bs := bs + [currentByte];
        started := true;
      }
    }
    assert Exp(0x100, 0) == 1;
  }

  lemma TopQuotient(n: nat, k: nat)
    ensures Exp(0x100, k) > 0 && Exp(0x100, k + 1) > 0
    ensures n / Exp(0x100, k + 1) == n / Exp(0x100, k) / 0x100
  {
    ExpPositive(0x100, k);
    ExpPositive(0x100, k + 1);
    DivDiv(n, Exp(0x100, k), 0x100);
    assert Exp(0x100, k + 1) == 0x100 * Exp(0x100, k);
  }

  /** Taking one byte more from the top appends it, unless everything so far is zero. */
  lemma MinimalStep(m: nat, h: nat)
    requires h == m / 0x100
    ensures Minimal(m) == if Minimal(h) == [] && m % 0x100 == 0 then [] else Minimal(h) + [m % 0x100]
  {
  }

  /** A 256-bit integer: its 32 big-endian bytes without the leading zero ones. */
  method ToByteString256(n: Word) returns (bs: seq<Byte>)
    ensures bs == Minimal(n)
  {
    if n == 0 { return []; }
    var arr := ToBE(n, 32);
    Power256Bytes(32);
    FromToBE(n, 32);
    var zeros := 0;
    while zeros < 32 && arr[zeros] == 0
      invariant 0 <= zeros <= 32
      invariant arr[..zeros] == Zeros(zeros)
    {
      assert arr[..zeros + 1] == arr[..zeros] + [0];
      zeros := zeros + 1;
    }
    bs := arr[zeros..];
    assert arr == Zeros(zeros) + bs;
    FromBELeadingZeros(zeros, bs);
    MinimalOfBytes(bs);
  }

  /** A byte string without a leading zero is the minimal form of its number. */
  lemma {:induction false} MinimalOfBytes(bs: seq<Byte>)
    requires bs == [] || bs[0] != 0
    ensures Minimal(FromBE(bs)) == bs
    ensures bs != [] ==> FromBE(bs) != 0
  {
    if bs != [] {
      var b, l := bs[..|bs| - 1], bs[|bs| - 1];
      MinimalOfBytes(b);
      assert bs == b + [l];
      assert b != [] ==> b[0] == bs[0];
      assert FromBE(bs) == FromBE(b) * 0x100 + l;
      hide Minimal, FromBE;
      MinimalSnoc(FromBE(b), l);
    }
  }

  lemma MinimalSnoc(x: nat, l: Byte)
    requires x > 0 || l > 0
    ensures Minimal(x * 0x100 + l) == Minimal(x) + [l]
  {
    DivModUnique(x * 0x100 + l, 0x100, x, l);
  }

  method PrefixMultipleLength(totalLength: U64, bs: seq<Byte>) returns (r: seq<Byte>)
    ensures r == Header(0xc0, totalLength) + bs
  {
    if totalLength <= 55 {
      return [0xc0 + totalLength] + bs;
    }
    var lengthAsBytes := ToByteStringU64(totalLength);
    LengthBytes(totalLength);
    lengthAsBytes := [0xf7 + |lengthAsBytes|] + lengthAsBytes;
    r := lengthAsBytes + bs;
  }

  /** `encode_single`, from the byte string of its argument on. */
  method EncodeSingle(bytes: seq<Byte>) returns (r: seq<Byte>)
    requires |bytes| < TWO64
    ensures r == EncodeString(bytes)
  {
    var length := |bytes|;
    if length == 1 && bytes[0] <= 0x7f {
      return bytes;
    }
    if length <= 55 {
      return [0x80 + length] + bytes;
    }
    var lengthAsBytes := ToByteStringU64(length);
    LengthBytes(length);
    lengthAsBytes := [0xb7 + |lengthAsBytes|] + lengthAsBytes;
    r := lengthAsBytes + bytes;
  }

  lemma {:induction false} EncodeAllAppend(vs: seq<Value>, v: Value)
    ensures EncodeAll(vs + [v]) == EncodeAll(vs) + Encode(v)
  {
    hide Encode;
    if vs == [] {
      assert (vs + [v])[1..] == [];
    } else {
      assert (vs + [v])[1..] == vs[1..] + [v];
      EncodeAllAppend(vs[1..], v);
    }
  }

  lemma {:induction false} EncodeAllPart(vs: seq<Value>, i: nat)
    requires i < |vs|
    ensures |EncodeAll(vs[..i])| + |Encode(vs[i])| <= |EncodeAll(vs)|
    decreases i
  {
    hide Encode;
    if i == 0 {
      assert vs[..0] == [];
    } else {
      assert vs[..i][1..] == vs[1..][..i - 1];
      EncodeAllPart(vs[1..], i - 1);
    }
  }

  /** `encode` of one argument of type `s`. */
  method EncodeValue(v: Value, s: Schema) returns (r: seq<Byte>)
    requires HasType(v, s) && |Encode(v)| < TWO64
    ensures r == Encode(v)
    decreases v, 1
  {
    match s
    case UIntType(k) =>
      NarrowFits(v.n, k);
      var bytes := ToByteStringU64(v.n);
      LengthOfPayload(v);
      r := EncodeSingle(bytes);
    case U64Type =>
      var bytes := ToByteStringU64(v.n);
      LengthOfPayload(v);
      r := EncodeSingle(bytes);
    case U256Type =>
      var bytes := ToByteString256(v.n);
      LengthOfPayload(v);
      r := EncodeSingle(bytes);
    case BytesType =>
      LengthOfPayload(v);
      r := EncodeSingle(v.bs);
    case FixedBytes(n) =>
      LengthOfPayload(v);
      r := EncodeSingle(v.bs);
    case VectorOf(e) =>
      r := EncodeElements(v, e);
    case ArrayOf(e, n) =>
      r := EncodeElements(v, e);
    case TupleOf(ss) =>
      var flattened := [];
      for i := 0 to |v.items|
        invariant flattened == EncodeAll(v.items[..i])
      {
        EncodeAllPart(v.items, i);
        var term := EncodeValue(v.items[i], ss[i]);
        EncodeAllAppend(v.items[..i], v.items[i]);
        assert v.items[..i + 1] == v.items[..i] + [v.items[i]];
        flattened := flattened + term;
      }
      assert v.items[..|v.items|] == v.items;
      r := PrefixMultipleLength(|flattened|, flattened);
  }

  lemma LengthOfPayload(v: Value)
    requires !v.Tup?
    ensures |Payload(v)| <= |Encode(v)|
  {
  }

  /** The element loop of vectors and arrays, the inner list header, and the outer string header. */
  method EncodeElements(v: Value, e: Schema) returns (r: seq<Byte>)
    requires v.Vec? && (forall i :: 0 <= i < |v.items| ==> HasType(v.items[i], e)) && |Encode(v)| < TWO64
    ensures r == Encode(v)
    decreases v, 0
  {
    LengthOfPayload(v);
    var combined := [];
    for i := 0 to |v.items|
      invariant combined == EncodeAll(v.items[..i])
    {
      EncodeAllPart(v.items, i);
      var next := EncodeValue(v.items[i], e);
      EncodeAllAppend(v.items[..i], v.items[i]);
      assert v.items[..i + 1] == v.items[..i] + [v.items[i]];
      combined := combined + next;
    }
    assert v.items[..|v.items|] == v.items;
    combined := PrefixMultipleLength(|combined|, combined);
    r := EncodeSingle(combined);
  }

  // ----- Decoding -----

  /** The data pointer: the bytes from it to the end of the buffer. */
  class Cursor {
    var data: seq<Byte>

    constructor (bytes: seq<Byte>)
      ensures data == bytes
    {
      data := bytes;
    }
  }

  /** A decoding result; the decremented size is an in-out parameter in the code. */
  datatype Read<T> = Done(value: T, size: nat) | Error(error: DecodeError)

  /** The method produced what the specification says, and moved the pointer to where it says. */
  ghost predicate Agrees<T>(spec: Step<T>, r: Read<T>, data: seq<Byte>) {
    match spec
    case Got(v, rest, size) => r == Done(v, size) && data == rest
    case Fail(e) => r == Error(e)
  }

  ghost function After<T>(vs: seq<T>, spec: Step<seq<T>>): Step<seq<T>> {
    if spec.Fail? then spec else Got(vs + spec.value, spec.rest, spec.size)
  }

  lemma AfterNothing<T>(spec: Step<seq<T>>)
    ensures After([], spec) == spec
  {
    if spec.Got? { assert [] + spec.value == spec.value; }
  }

  /** Shifts bytes into a 64-bit result while any are left. */
  method ReadNumber(c: Cursor, size: nat) returns (result: nat)
    requires size <= 8 && size <= |c.data|
    modifies c
    ensures result == FromBE(old(c.data)[..size]) && c.data == old(c.data)[size..]
  {
    result := 0;
    var left := size;
    Power256Bytes(32);
    while left > 0
      invariant 0 <= left <= size
      invariant c.data == old(c.data)[size - left..]
      invariant result == FromBE(old(c.data)[..size - left])
    {
      var read := old(c.data)[..size - left];
      FromBEBound(read);
      ExpMonotone(0x100, |read|, 7);
      assert old(c.data)[..size - left + 1] == read + [c.data[0]];
      assert (read + [c.data[0]])[..|read|] == read;
      ShiftInByte(result, c.data[0], |read|);
      result := (result * 0x100) % TWO64 + c.data[0];
      c.data := c.data[1..];
      left := left - 1;
    }
  }

  lemma ShiftInByte(x: nat, b: Byte, k: nat)
    requires k <= 7 && x < Exp(0x100, k)
    ensures (x * 0x100) % TWO64 + b == x * 0x100 + b
  {
    Power256Bytes(32);
    ExpMonotone(0x100, k + 1, 8);
    DivModUnique(x * 0x100, TWO64, 0, x * 0x100);
  }

  method ReadLength(c: Cursor, size: nat) returns (r: Read<(Arity, nat)>)
    modifies c
    ensures Agrees(DecodeLength(old(c.data), size), r, c.data)
  {
    if size == 0 { return Error(EmptyData); }
    if c.data == [] { return Error(OutOfBounds); }
    if c.data[0] <= 0x7f { return Done((Single, 1), size); }
    var length := c.data[0];
    c.data := c.data[1..];
    var left := size - 1;
    if length <= 0xb7 { return Done((Single, length - 0x80), left); }
    if length <= 0xbf {
      var lengthOfLength := length - 0xb7;
      if left < lengthOfLength { return Error(ShortLength); }
      if |c.data| < lengthOfLength { return Error(OutOfBounds); }
      var n := ReadNumber(c, lengthOfLength);
      return Done((Single, n), left - lengthOfLength);
    }
    if length <= 0xf7 { return Done((Multiple, length - 0xc0), left); }
    var lengthOfLength := length - 0xf7;
    if left < lengthOfLength { return Error(ShortLength); }
    if |c.data| < lengthOfLength { return Error(OutOfBounds); }
    var n := ReadNumber(c, lengthOfLength);
    return Done((Multiple, n), left - lengthOfLength);
  }

  /** `decode_impl` for one type argument. */
  method ReadImpl(c: Cursor, s: Schema, size: nat) returns (r: Read<Value>)
    modifies c
    ensures Agrees(DecodeImpl(s, old(c.data), size), r, c.data)
    decreases s, 1, 0
  {
    hide DecodeLength, FromBytes, DecodeTuple;
    var l := ReadLength(c, size);
    if l.Error? { return Error(l.error); }
    var (arity, contained) := l.value;
    if s.TupleOf? {
      if arity != Multiple { return Error(NotList); }
      var vs := ReadTuple(c, s.elems, contained);
      if vs.Error? { return Error(vs.error); }
      return Done(Tup(vs.value), (l.size - contained) % TWO64);
    }
    if arity != Single { return Error(NotSingle); }
    var v := ReadPayload(c, s, contained);
    if v.Error? { return Error(v.error); }
    return Done(v.value, (l.size - contained) % TWO64);
  }

  /** `from_bytes` for every non-tuple type. */
  method ReadPayload(c: Cursor, s: Schema, size: nat) returns (r: Read<Value>)
    requires !s.TupleOf?
    modifies c
    ensures Agrees(FromBytes(s, old(c.data), size), r, c.data)
    decreases s, 0, 0
  {
    hide DecodeLength, DecodeVector, DecodeArray;
    match s
    case UIntType(k) =>
      if size > 8 { return Error(TooManyBytes); }
      if |c.data| < size { return Error(OutOfBounds); }
      var n := ReadNumber(c, size);
      return Done(Num(Narrow(n, k)), 0);
    case U64Type =>
      if size > 8 { return Error(TooManyBytes); }
      if |c.data| < size { return Error(OutOfBounds); }
      var n := ReadNumber(c, size);
      return Done(Num(n), 0);
    case U256Type =>
      if size > 32 { return Error(TooManyBytes); }
      if |c.data| < size { return Error(OutOfBounds); }
      var n := FromBE(c.data[..size]);
      c.data := c.data[size..];
      return Done(Num(n), 0);
    case BytesType =>
      if |c.data| < size { return Error(OutOfBounds); }
      var bs := ReadBytes(c, size);
      return Done(Str(bs), 0);
    case FixedBytes(n) =>
      if size != n { return Error(WrongArraySize); }
      if |c.data| < size { return Error(OutOfBounds); }
      var bs := ReadBytes(c, size);
      return Done(Str(bs), 0);
    case VectorOf(e) =>
      var l := ReadLength(c, size);
      if l.Error? { return Error(l.error); }
      var vs := ReadVector(c, e, l.value.1);
      if vs.Error? { return Error(vs.error); }
      return Done(Vec(vs.value), 0);
    case ArrayOf(e, n) =>
      var l := ReadLength(c, size);
      if l.Error? { return Error(l.error); }
      var vs := ReadArray(c, e, n, l.size);
      if vs.Error? { return Error(vs.error); }
      return Done(Vec(vs.value), 0);
  }

  method ReadBytes(c: Cursor, size: nat) returns (bs: seq<Byte>)
    requires size <= |c.data|
    modifies c
    ensures bs == old(c.data)[..size] && c.data == old(c.data)[size..]
  {
    bs := [];
    for i := 0 to size
      invariant bs == old(c.data)[..i] && c.data == old(c.data)[i..]
    {
      bs := bs + [c.data[0]];
      c.data := c.data[1..];
    }
  }

  method ReadVector(c: Cursor, e: Schema, size: nat) returns (r: Read<seq<Value>>)
    modifies c
    ensures Agrees(DecodeVector(e, old(c.data), size), r, c.data)
    decreases e, 2, |c.data|, size
  {
    hide DecodeImpl;
    var result: seq<Value>, contained := [], size;
    AfterNothing(DecodeVector(e, c.data, contained));
    while contained > 0
      invariant After(result, DecodeVector(e, c.data, contained)) == DecodeVector(e, old(c.data), size)
      decreases |c.data|, contained
    {
      var spec := DecodeImpl(e, c.data, contained);
      var v := ReadImpl(c, e, contained);
      if v.Error? { return Error(v.error); }
      assert forall rest: seq<Value> :: (result + [v.value]) + rest == result + ([v.value] + rest);
      result := result + [v.value];
      contained := v.size;
    }
    assert result + [] == result;
    return Done(result, 0);
  }

  method ReadArray(c: Cursor, e: Schema, n: nat, size: nat) returns (r: Read<seq<Value>>)
    modifies c
    ensures Agrees(DecodeArray(e, n, old(c.data), size), r, c.data)
    decreases e, 2, n
  {
    hide DecodeImpl;
    var result: seq<Value>, left := [], size;
    AfterNothing(DecodeArray(e, n, c.data, left));
    for i := 0 to n
      invariant After(result, DecodeArray(e, n - i, c.data, left)) == DecodeArray(e, n, old(c.data), size)
    {
      var v := ReadImpl(c, e, left);
      if v.Error? { return Error(v.error); }
      assert forall rest: seq<Value> :: (result + [v.value]) + rest == result + ([v.value] + rest);
      result := result + [v.value];
      left := v.size;
    }
    assert result + [] == result;
    return Done(result, left);
  }

  method ReadTuple(c: Cursor, ss: seq<Schema>, size: nat) returns (r: Read<seq<Value>>)
    modifies c
    ensures Agrees(DecodeTuple(ss, old(c.data), size), r, c.data)
    decreases ss, 2, 0
  {
    hide DecodeImpl;
    if ss == [] { return Done([], size); }
    var first := ReadImpl(c, ss[0], size);
    if first.Error? { return Error(first.error); }
    var others := ReadTuple(c, ss[1..], first.size);
    if others.Error? { return Error(others.error); }
    return Done([first.value] + others.value, others.size);
  }

  /** `decode<T>` on the output of `encode`, as the code runs it, returns the value. */
  method EncodeThenDecode(v: Value, s: Schema) returns (r: Read<Value>)
    requires HasType(v, s) && |Encode(v)| < TWO64
    ensures r == Done(v, 0)
  {
    var bytes := EncodeValue(v, s);
    var c := new Cursor(bytes);
    assert bytes + [] == bytes;
    RoundTrip(s, v, [], 0);
    hide DecodeImpl;
    r := ReadImpl(c, s, |bytes|);
  }
}
