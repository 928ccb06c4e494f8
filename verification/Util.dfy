/** The byte-order helpers of include/eEVM/util.h. */
module Util {
  import opened Words
  import opened Evm

  /** `std::logic_error` for oversized input. */
  datatype Loaded = Value(v: Word) | Oversized

  method FromBigEndian(bytes: seq<Byte>) returns (r: Loaded)
    ensures |bytes| > 32 ==> r == Oversized
    ensures |bytes| <= 32 ==> r.Value? && r.v == FromBE(bytes)
  {
    if |bytes| == 32 {
      return Value(WordOf(bytes));
    } else if |bytes| > 32 {
      return Oversized;
    }
    var tmp := new Byte[32](_ => 0);
    var offset := 32 - |bytes|;
    for i := 0 to |bytes|
      invariant forall k :: 0 <= k < 32 ==> tmp[k] == if offset <= k < offset + i then bytes[k - offset] else 0
    {
      tmp[offset + i] := bytes[i];
    }
    assert tmp[..] == Zeros(offset) + bytes;
    FromBELeadingZeros(offset, bytes);
    return Value(WordOf(tmp[..]));
  }

  method ToBigEndian(v: Word, out: array<Byte>)
    requires out.Length == 32
    modifies out
    ensures out[..] == ToBE(v, 32)
  {
    var x: nat := v;
    var i := 32;
    while i > 0
      invariant 0 <= i <= 32
      invariant ToBE(v, 32) == ToBE(x, i) + out[i..]
    {
      i := i - 1;
      ghost var done := out[i + 1..];
      DigitMoves(x, i, done);
      out[i] := x % 0x100;
      assert out[i..] == [x % 0x100] + done;
      x := x / 0x100;
    }
  }

  lemma DigitMoves(x: nat, i: nat, done: seq<Byte>)
    ensures ToBE(x, i + 1) + done == ToBE(x / 0x100, i) + ([x % 0x100] + done)
  {
  }
}
