/** RLP as the encoder and decoder of include/eEVM/rlp.h define it: the values, what they encode to,
    and what the decoder reads for a schema. Appendix B of the Ethereum Yellow Paper is the format. */
module Rlp {
  import opened Words

  /** The C++ argument types: integers, byte strings, vectors and arrays, tuples. */
  datatype Schema =
    | UIntType(bytes: nat)  // the unsigned types of 1, 2 and 4 bytes
    | U64Type
    | U256Type
    | BytesType
    | FixedBytes(n: nat)
    | VectorOf(elem: Schema)
    | ArrayOf(elem: Schema, n: nat)
    | TupleOf(elems: seq<Schema>)

  datatype Value = Num(n: nat) | Str(bs: seq<Byte>) | Vec(items: seq<Value>) | Tup(items: seq<Value>)

  predicate HasType(v: Value, s: Schema)
    decreases v, 0
  {
    match s
    case UIntType(k) => (k == 1 || k == 2 || k == 4) && v.Num? && v.n < Exp(0x100, k)
    case U64Type => v.Num? && v.n < TWO64
    case U256Type => v.Num? && v.n < TWO256
    case BytesType => v.Str?
    case FixedBytes(n) => v.Str? && |v.bs| == n
    case VectorOf(e) => v.Vec? && forall i :: 0 <= i < |v.items| ==> HasType(v.items[i], e)
    case ArrayOf(e, n) => v.Vec? && |v.items| == n && forall i :: 0 <= i < |v.items| ==> HasType(v.items[i], e)
    case TupleOf(ss) => v.Tup? && HasTypes(v.items, ss)
  }

  predicate HasTypes(vs: seq<Value>, ss: seq<Schema>)
    decreases vs, 1
  {
    |vs| == |ss| && forall i :: 0 <= i < |vs| ==> HasType(vs[i], ss[i])
  }

  // ----- Encoding -----

  /** Big-endian without leading zeros; nothing at all for zero. */
  function Minimal(n: nat): seq<Byte> {
    if n == 0 then [] else Minimal(n / 0x100) + [n % 0x100]
  }

  /** A string (`base == 0x80`) or list (`base == 0xc0`) header for `len` bytes of payload. */
  function Header(base: nat, len: nat): seq<Byte>
    requires base == 0x80 || base == 0xc0
  {
    if len <= 55 then [base + len]
    else [(base + 55 + |Minimal(len)|) % 0x100] + Minimal(len)
  }

  function EncodeString(bs: seq<Byte>): seq<Byte> {
    if |bs| == 1 && bs[0] <= 0x7f then bs else Header(0x80, |bs|) + bs
  }

  function EncodeList(payload: seq<Byte>): seq<Byte> {
    Header(0xc0, |payload|) + payload
  }

  /** `encode` of one argument: a vector becomes a byte string around an RLP list, a tuple a plain list. */
  function Encode(v: Value): seq<Byte>
    decreases v, 0
  {
    match v
    case Num(n) => EncodeString(Minimal(n))
    case Str(bs) => EncodeString(bs)
    case Vec(items) => EncodeString(EncodeList(EncodeAll(items)))
    case Tup(items) => EncodeList(EncodeAll(items))
  }

  function EncodeAll(vs: seq<Value>): seq<Byte>
    decreases vs, 1
  {
    if vs == [] then [] else Encode(vs[0]) + EncodeAll(vs[1..])
  }

  /** `encode` of a parameter pack: one argument stands for itself, any other number is a list. */
  function EncodePack(vs: seq<Value>): seq<Byte> {
    if |vs| == 1 then Encode(vs[0]) else EncodeList(EncodeAll(vs))
  }

  // ----- Decoding -----

  datatype DecodeError =
    | EmptyData | ShortLength | NotSingle | NotList | NotEmptyList
    | TooManyBytes | WrongArraySize | Leftover
    | OutOfBounds  // the C++ code would read past its buffer

  datatype Arity = Single | Multiple

  /** A decoding step: the result, the bytes after the moved pointer, and the decremented size. */
  datatype Step<T> = Got(value: T, rest: seq<Byte>, size: nat) | Fail(error: DecodeError) {
    predicate IsFailure() { Fail? }
    function PropagateFailure<U>(): Step<U> requires Fail? { Fail(error) }
    function Extract(): (T, seq<Byte>, nat) requires Got? { (value, rest, size) }
  }

  function LongLength(arity: Arity, d: seq<Byte>, size: nat, n: nat): Step<(Arity, nat)> {
    if size < n then Fail(ShortLength)
    else if |d| < n then Fail(OutOfBounds)
    else Got((arity, FromBE(d[..n])), d[n..], size - n)
  }

  /** Reads a header; the first byte of a small single byte is left in place. */
  function DecodeLength(d: seq<Byte>, size: nat): (r: Step<(Arity, nat)>)
    ensures r.Got? && r.size == size ==> r.value == (Single, 1)
    ensures r.Got? ==> r.size <= size
    ensures r.Got? ==> |r.rest| <= |d| && (|r.rest| == |d| ==> r.size == size > 0 && d != [])
  {
    if size == 0 then Fail(EmptyData)
    else if d == [] then Fail(OutOfBounds)
    else if d[0] <= 0x7f then Got((Single, 1), d, size)
    else if d[0] <= 0xb7 then Got((Single, d[0] - 0x80), d[1..], size - 1)
    else if d[0] <= 0xbf then LongLength(Single, d[1..], size - 1, d[0] - 0xb7)
    else if d[0] <= 0xf7 then Got((Multiple, d[0] - 0xc0), d[1..], size - 1)
    else LongLength(Multiple, d[1..], size - 1, d[0] - 0xf7)
  }

  /** `size -= contained_length` on an unsigned size. */
  function Minus(size: nat, contained: nat): nat {
    (size - contained) % TWO64
  }

  /** `decode_impl` for one type argument. Nothing compares the announced length with the size. */
  function DecodeImpl(s: Schema, d: seq<Byte>, size: nat): (r: Step<Value>)
    ensures r.Got? ==> |r.rest| <= |d| && (|r.rest| == |d| ==> r.size < size)
    decreases s, 1, 0
  {
    var ((arity, contained), d1, size1) :- DecodeLength(d, size);
    if s.TupleOf? then
      if arity != Multiple then Fail(NotList)
      else
        var (vs, d2, _) :- DecodeTuple(s.elems, d1, contained);
        Got(Tup(vs), d2, Minus(size1, contained))
    else
      if arity != Single then Fail(NotSingle)
      else
        var (v, d2, _) :- FromBytes(s, d1, contained);
        Got(v, d2, Minus(size1, contained))
  }

  /** The cast to an unsigned type of `k` bytes. */
  function Narrow(n: nat, k: nat): nat {
    ExpPositive(0x100, k);
    n % Exp(0x100, k)
  }

  /** `from_bytes`: the payload of a single item. */
  function FromBytes(s: Schema, d: seq<Byte>, size: nat): (r: Step<Value>)
    requires !s.TupleOf?
    ensures r.Got? ==> |r.rest| <= |d|
    decreases s, 0, 0
  {
    match s
    case UIntType(k) =>
      if size > 8 then Fail(TooManyBytes) else if |d| < size then Fail(OutOfBounds)
      else Got(Num(Narrow(FromBE(d[..size]), k)), d[size..], 0)
    case U64Type =>
      if size > 8 then Fail(TooManyBytes) else if |d| < size then Fail(OutOfBounds)
      else Got(Num(FromBE(d[..size])), d[size..], 0)
    case U256Type =>
      if size > 32 then Fail(TooManyBytes) else if |d| < size then Fail(OutOfBounds)
      else Got(Num(FromBE(d[..size])), d[size..], 0)
    case BytesType =>
      if |d| < size then Fail(OutOfBounds) else Got(Str(d[..size]), d[size..], 0)
    case FixedBytes(n) =>
      if size != n then Fail(WrongArraySize) else if |d| < size then Fail(OutOfBounds)
      else Got(Str(d[..size]), d[size..], 0)
    case VectorOf(e) =>
      var ((_, contained), d1, _) :- DecodeLength(d, size);
      var (vs, d2, _) :- DecodeVector(e, d1, contained);
      Got(Vec(vs), d2, 0)
    case ArrayOf(e, n) =>
      var (_, d1, size1) :- DecodeLength(d, size);
      var (vs, d2, _) :- DecodeArray(e, n, d1, size1);
      Got(Vec(vs), d2, 0)
  }

  /** The loop that fills a vector while bytes of the list remain. */
  function DecodeVector(e: Schema, d: seq<Byte>, contained: nat): (r: Step<seq<Value>>)
    ensures r.Got? ==> |r.rest| <= |d|
    decreases e, 2, |d|, contained
  {
    if contained == 0 then Got([], d, 0) else
      var (v, d1, size1) :- DecodeImpl(e, d, contained);
      var (vs, d2, size2) :- DecodeVector(e, d1, size1);
      Got([v] + vs, d2, size2)
  }

  /** The loop that fills an array of `n` elements. */
  function DecodeArray(e: Schema, n: nat, d: seq<Byte>, size: nat): (r: Step<seq<Value>>)
    ensures r.Got? ==> |r.rest| <= |d|
    decreases e, 2, n
  {
    if n == 0 then Got([], d, size) else
      var (v, d1, size1) :- DecodeImpl(e, d, size);
      var (vs, d2, size2) :- DecodeArray(e, n - 1, d1, size1);
      Got([v] + vs, d2, size2)
  }

  /** The elements of a tuple, in order; nothing checks that the list ends with the last one. */
  function DecodeTuple(ss: seq<Schema>, d: seq<Byte>, size: nat): (r: Step<seq<Value>>)
    ensures r.Got? ==> |r.rest| <= |d|
    decreases ss, 2, 0
  {
    if ss == [] then Got([], d, size) else
      var (v, d1, size1) :- DecodeImpl(ss[0], d, size);
      var (vs, d2, size2) :- DecodeTuple(ss[1..], d1, size1);
      Got([v] + vs, d2, size2)
  }

  /** The items of a pack of two or more. A tuple item is entered without reading its own header. */
  function DecodeMultiple(ss: seq<Schema>, d: seq<Byte>, size: nat): Step<seq<Value>>
    decreases |ss|
  {
    if ss == [] then Got([], d, size) else
      var (v, d1, size1) :- DecodeItem(ss[0], d, size);
      var (vs, d2, size2) :- DecodeMultiple(ss[1..], d1, size1);
      Got([v] + vs, d2, size2)
  }

  function DecodeItem(s: Schema, d: seq<Byte>, size: nat): Step<Value> {
    if s.TupleOf? then
      var (vs, d1, size1) :- DecodeTuple(s.elems, d, size);
      Got(Tup(vs), d1, size1)
    else DecodeImpl(s, d, size)
  }

  /** `decode` of a pack of types: the whole input has to be consumed. */
  function DecodePack(ss: seq<Schema>, bytes: seq<Byte>): Step<seq<Value>> {
    var (vs, rest, size) :- DecodePackImpl(ss, bytes, |bytes|);
    if size != 0 then Fail(Leftover) else Got(vs, rest, size)
  }

  function DecodePackImpl(ss: seq<Schema>, d: seq<Byte>, size: nat): Step<seq<Value>> {
    if |ss| == 1 then
      var (v, d1, size1) :- DecodeImpl(ss[0], d, size);
      Got([v], d1, size1)
    else
      var ((arity, contained), d1, size1) :- DecodeLength(d, size);
      if arity != Multiple then Fail(NotList)
      else if ss == [] then
        if contained != 0 then Fail(NotEmptyList) else Got([], d1, size1)
      else
        var (vs, d2, _) :- DecodeMultiple(ss, d1, contained);
        Got(vs, d2, Minus(size1, contained))
  }
}
