/** Two or more arguments at once. The decoder enters a tuple among them without reading the tuple's own
    header, so from the first tuple on it reads headers that belong to something earlier. */
module RlpPacks {
  import opened Words
  import opened Rlp
  import opened RlpRoundTrip

  // ----- Tuples without values -----

  /** Nothing but tuples, all the way down. */
  predicate Leafless(ss: seq<Schema>)
    decreases ss
  {
    ss == [] || (ss[0].TupleOf? && Leafless(ss[0].elems) && Leafless(ss[1..]))
  }

  /** The only values such types have. */
  function Units(ss: seq<Schema>): (vs: seq<Value>)
    requires Leafless(ss)
    ensures |vs| == |ss|
    decreases ss
  {
    if ss == [] then [] else [Tup(Units(ss[0].elems))] + Units(ss[1..])
  }

  lemma {:induction false} UnitsUnique(ss: seq<Schema>, vs: seq<Value>)
    requires Leafless(ss) && HasTypes(vs, ss)
    ensures vs == Units(ss)
    decreases ss
  {
    if ss != [] {
      UnitsUnique(ss[0].elems, vs[0].items);
      UnitsUnique(ss[1..], vs[1..]);
      assert vs == [vs[0]] + vs[1..];
    }
  }

  /** How many tuple headers come before the first value, or in all. */
  function Lead(ss: seq<Schema>): nat
    decreases ss
  {
    if ss == [] || !ss[0].TupleOf? then 0
    else 1 + Lead(ss[0].elems) + (if Leafless(ss[0].elems) then Lead(ss[1..]) else 0)
  }

  // ----- Headers in a row -----

  /** List headers with the given payload lengths, one after the other. */
  function Stream(tokens: seq<nat>): seq<Byte> {
    if tokens == [] then [] else Header(0xc0, tokens[0]) + Stream(tokens[1..])
  }

  predicate Sizes(tokens: seq<nat>) {
    forall i :: 0 <= i < |tokens| ==> tokens[i] < TWO64
  }

  lemma {:induction false} StreamConcat(a: seq<nat>, b: seq<nat>)
    ensures Stream(a + b) == Stream(a) + Stream(b)
  {
    hide Header;
    if a == [] {
      assert a + b == b;
    } else {
      assert (a + b)[1..] == a[1..] + b;
      StreamConcat(a[1..], b);
    }
  }

  lemma StreamParts(q: nat, inner: seq<nat>, more: seq<nat>)
    ensures Stream([q] + inner + more) == Header(0xc0, q) + Stream(inner) + Stream(more)
  {
    hide Header;
    var t := [q] + inner + more;
    assert t[1..] == inner + more;
    StreamConcat(inner, more);
  }

  lemma NoHeaders()
    ensures Stream([]) == []
  {
  }

  /** The payload lengths of all headers of types without values, in the order of the encoding. */
  function Tokens(ss: seq<Schema>): (tokens: seq<nat>)
    requires Leafless(ss)
    ensures |tokens| == Lead(ss)
    decreases ss
  {
    if ss == [] then []
    else var inner := Tokens(ss[0].elems); [|Stream(inner)|] + inner + Tokens(ss[1..])
  }

  /** An encoding starts with the headers that lead to its first value; without values it is all headers. */
  lemma {:induction false} LeadTokens(ss: seq<Schema>, vs: seq<Value>) returns (tokens: seq<nat>, rest: seq<Byte>)
    requires HasTypes(vs, ss) && |EncodeAll(vs)| < TWO64
    ensures |tokens| == Lead(ss) && Sizes(tokens) && EncodeAll(vs) == Stream(tokens) + rest
    ensures Leafless(ss) ==> rest == [] && tokens == Tokens(ss)
    decreases ss
  {
    hide Header, Encode, EncodeAll, Stream, HasType, HasTypes;
    NothingEncoded();
    NoHeaders();
    Typed(ss, vs);
    if ss == [] || !ss[0].TupleOf? {
      tokens, rest := [], EncodeAll(vs);
    } else {
      TupleSizes(vs);
      var inner, rest1 := LeadTokens(ss[0].elems, vs[0].items);
      if Leafless(ss[0].elems) {
        var more, rest2 := LeadTokens(ss[1..], vs[1..]);
        tokens, rest := [|Stream(inner)|] + inner + more, rest2;
        WholeTuple(vs, inner, more, rest2);
      } else {
        tokens, rest := [|EncodeAll(vs[0].items)|] + inner, rest1 + EncodeAll(vs[1..]);
        PartOfTuple(vs, inner, rest1);
      }
    }
  }

  lemma Typed(ss: seq<Schema>, vs: seq<Value>)
    requires HasTypes(vs, ss)
    ensures |vs| == |ss|
    ensures ss != [] ==> HasTypes(vs[1..], ss[1..])
    ensures ss != [] && ss[0].TupleOf? ==> vs[0].Tup? && HasTypes(vs[0].items, ss[0].elems)
  {
  }

  lemma WholeTuple(vs: seq<Value>, inner: seq<nat>, more: seq<nat>, rest: seq<Byte>)
    requires vs != [] && vs[0].Tup? && EncodeAll(vs[0].items) == Stream(inner) + []
    requires EncodeAll(vs[1..]) == Stream(more) + rest
    ensures EncodeAll(vs) == Stream([|Stream(inner)|] + inner + more) + rest
  {
    hide Header, Encode, EncodeAll, Stream;
    var p := EncodeAll(vs[0].items);
    assert p == Stream(inner);
    TupleFirst(vs);
    StreamParts(|p|, inner, more);
  }

  lemma PartOfTuple(vs: seq<Value>, inner: seq<nat>, rest: seq<Byte>)
    requires vs != [] && vs[0].Tup? && EncodeAll(vs[0].items) == Stream(inner) + rest
    ensures EncodeAll(vs) == Stream([|EncodeAll(vs[0].items)|] + inner) + (rest + EncodeAll(vs[1..]))
  {
    hide Header, Encode, EncodeAll, Stream;
    var p := EncodeAll(vs[0].items);
    TupleFirst(vs);
    NoHeaders();
    StreamParts(|p|, inner, []);
    assert [|p|] + inner + [] == [|p|] + inner;
  }

  lemma TupleSizes(vs: seq<Value>)
    requires vs != [] && vs[0].Tup?
    ensures |EncodeAll(vs[0].items)| <= |EncodeAll(vs)| && |EncodeAll(vs[1..])| <= |EncodeAll(vs)|
  {
    hide Header, Encode, EncodeAll;
    TupleFirst(vs);
  }

  lemma NothingEncoded()
    ensures EncodeAll([]) == []
  {
  }

  lemma TupleFirst(vs: seq<Value>)
    requires vs != [] && vs[0].Tup?
    ensures var p := EncodeAll(vs[0].items); EncodeAll(vs) == Header(0xc0, |p|) + p + EncodeAll(vs[1..])
  {
    hide Header;
  }

  // ----- Reading one header -----

  lemma HeaderStep(p: nat, rest: seq<Byte>, size: nat)
    requires p < TWO64
    ensures var r := DecodeLength(Header(0xc0, p) + rest, size);
            if size < |Header(0xc0, p)| then r.Fail? else r == Got((Multiple, p), rest, size - |Header(0xc0, p)|)
  {
    if size < |Header(0xc0, p)| {
      HeaderRange(0xc0, p);
      var d := Header(0xc0, p) + rest;
      assert d[0] == Header(0xc0, p)[0];
    } else {
      HeaderRoundTrip(0xc0, p, rest, size - |Header(0xc0, p)|);
    }
  }

  /** A value cannot start at a list header. */
  lemma MeetsHeader(s: Schema, tokens: seq<nat>, rest: seq<Byte>, size: nat)
    requires !s.TupleOf? && tokens != [] && Sizes(tokens)
    ensures DecodeImpl(s, Stream(tokens) + rest, size).Fail?
  {
    hide FromBytes, DecodeLength, Header;
    HeaderStep(tokens[0], Stream(tokens[1..]) + rest, size);
    assert Stream(tokens) + rest == Header(0xc0, tokens[0]) + (Stream(tokens[1..]) + rest);
  }

  lemma TupleStep(s: Schema, tokens: seq<nat>, rest: seq<Byte>, size: nat)
    requires s.TupleOf? && tokens != [] && Sizes(tokens)
    ensures var r := DecodeImpl(s, Stream(tokens) + rest, size);
            var h := |Header(0xc0, tokens[0])|;
            var t := DecodeTuple(s.elems, Stream(tokens[1..]) + rest, tokens[0]);
            if size < h || t.Fail? then r.Fail?
            else r == Got(Tup(t.value), t.rest, Minus(size - h, tokens[0]))
  {
    hide DecodeTuple, DecodeLength, Header;
    HeaderStep(tokens[0], Stream(tokens[1..]) + rest, size);
    assert Stream(tokens) + rest == Header(0xc0, tokens[0]) + (Stream(tokens[1..]) + rest);
  }

  // ----- Reading headers that belong to something earlier -----

  datatype Budget = Left(size: nat) | Broke

  /** What reading types without values from these headers leaves of a size, or that it runs out. Only
      lengths are looked at. */
  function Spend(ss: seq<Schema>, tokens: seq<nat>, size: nat): Budget
    requires Leafless(ss) && |tokens| >= Lead(ss)
    decreases ss
  {
    if ss == [] then Left(size)
    else
      var p := tokens[0];
      var h := |Header(0xc0, p)|;
      if size < h || Spend(ss[0].elems, tokens[1..], p).Broke? then Broke
      else Spend(ss[1..], tokens[1 + Lead(ss[0].elems)..], Minus(size - h, p))
  }

  /** Types without values read as many headers as they have tuples, whatever headers these are; only the
      sizes can make that fail. */
  lemma {:induction false} TupleSpends(ss: seq<Schema>, tokens: seq<nat>, rest: seq<Byte>, size: nat)
    requires Leafless(ss) && |tokens| >= Lead(ss) && Sizes(tokens)
    ensures var r := DecodeTuple(ss, Stream(tokens) + rest, size);
            var b := Spend(ss, tokens, size);
            if b.Broke? then r.Fail? else r == Got(Units(ss), Stream(tokens[Lead(ss)..]) + rest, b.size)
    decreases ss
  {
    hide DecodeImpl, Header, Stream, Minus;
    if ss == [] {
      assert tokens[0..] == tokens;
    } else {
      var k := Lead(ss[0].elems);
      TupleStep(ss[0], tokens, rest, size);
      TupleSpends(ss[0].elems, tokens[1..], rest, tokens[0]);
      assert tokens[1..][k..] == tokens[1 + k..];
      var h := |Header(0xc0, tokens[0])|;
      if size >= h && !Spend(ss[0].elems, tokens[1..], tokens[0]).Broke? {
        TupleSpends(ss[1..], tokens[1 + k..], rest, Minus(size - h, tokens[0]));
        assert tokens[1 + k..][Lead(ss[1..])..] == tokens[Lead(ss)..];
      }
    }
  }

  /** With one header more than lead to the first value, that value meets a header. */
  lemma {:induction false} TupleFails(ss: seq<Schema>, tokens: seq<nat>, rest: seq<Byte>, size: nat)
    requires !Leafless(ss) && |tokens| > Lead(ss) && Sizes(tokens)
    ensures DecodeTuple(ss, Stream(tokens) + rest, size).Fail?
    decreases ss
  {
    hide DecodeImpl, Header, Stream, Minus;
    if !ss[0].TupleOf? {
      MeetsHeader(ss[0], tokens, rest, size);
    } else {
      TupleStep(ss[0], tokens, rest, size);
      if !Leafless(ss[0].elems) {
        TupleFails(ss[0].elems, tokens[1..], rest, tokens[0]);
      } else {
        var k := Lead(ss[0].elems);
        TupleSpends(ss[0].elems, tokens[1..], rest, tokens[0]);
        assert tokens[1..][k..] == tokens[1 + k..];
        var h := |Header(0xc0, tokens[0])|;
        if size >= h { TupleFails(ss[1..], tokens[1 + k..], rest, Minus(size - h, tokens[0])); }
      }
    }
  }

  // ----- The items of a pack -----

  /** The headers that the items read before their first value: those of the tuples themselves are skipped. */
  function ItemLead(ss: seq<Schema>): (n: nat)
    ensures n <= Lead(ss)
    ensures ss != [] && ss[0].TupleOf? ==> n < Lead(ss)
    decreases |ss|
  {
    if ss == [] || !ss[0].TupleOf? then 0
    else Lead(ss[0].elems) + (if Leafless(ss[0].elems) then ItemLead(ss[1..]) else 0)
  }

  function ItemSpend(ss: seq<Schema>, tokens: seq<nat>, size: nat): Budget
    requires Leafless(ss) && |tokens| >= ItemLead(ss)
    decreases |ss|
  {
    if ss == [] then Left(size)
    else
      match Spend(ss[0].elems, tokens, size)
      case Broke => Broke
      case Left(size1) => ItemSpend(ss[1..], tokens[Lead(ss[0].elems)..], size1)
  }

  lemma {:induction false} ItemsSpend(ss: seq<Schema>, tokens: seq<nat>, rest: seq<Byte>, size: nat)
    requires Leafless(ss) && |tokens| >= ItemLead(ss) && Sizes(tokens)
    ensures var r := DecodeMultiple(ss, Stream(tokens) + rest, size);
            var b := ItemSpend(ss, tokens, size);
            if b.Broke? then r.Fail? else r == Got(Units(ss), Stream(tokens[ItemLead(ss)..]) + rest, b.size)
    decreases |ss|
  {
    hide DecodeTuple, Stream, Spend;
    if ss == [] {
      assert tokens[0..] == tokens;
    } else {
      var k := Lead(ss[0].elems);
      TupleSpends(ss[0].elems, tokens, rest, size);
      if !Spend(ss[0].elems, tokens, size).Broke? {
        ItemsSpend(ss[1..], tokens[k..], rest, Spend(ss[0].elems, tokens, size).size);
        assert tokens[k..][ItemLead(ss[1..])..] == tokens[ItemLead(ss)..];
      }
    }
  }

  lemma {:induction false} ItemsFail(ss: seq<Schema>, tokens: seq<nat>, rest: seq<Byte>, size: nat)
    requires !Leafless(ss) && |tokens| > ItemLead(ss) && Sizes(tokens)
    ensures DecodeMultiple(ss, Stream(tokens) + rest, size).Fail?
    decreases |ss|
  {
    hide DecodeTuple, DecodeImpl, Stream;
    if !ss[0].TupleOf? {
      MeetsHeader(ss[0], tokens, rest, size);
    } else if !Leafless(ss[0].elems) {
      TupleFails(ss[0].elems, tokens, rest, size);
    } else {
      var k := Lead(ss[0].elems);
      TupleSpends(ss[0].elems, tokens, rest, size);
      var b := Spend(ss[0].elems, tokens, size);
      if !b.Broke? { ItemsFail(ss[1..], tokens[k..], rest, b.size); }
    }
  }

  /** From its first tuple on, a list of items yields nothing, or the right values and unread headers. */
  lemma FromFirstTuple(ss: seq<Schema>, vs: seq<Value>)
    requires HasTypes(vs, ss) && |EncodeAll(vs)| < TWO64 && ss != [] && ss[0].TupleOf?
    ensures var r := DecodeMultiple(ss, EncodeAll(vs), |EncodeAll(vs)|);
            && (Survives(ss) <==> r.Got?)
            && (r.Got? ==> r.value == vs && r.rest != [])
  {
    hide DecodeMultiple, EncodeAll, Header, Lead, ItemSpend;
    var tokens, rest := LeadTokens(ss, vs);
    var n := |EncodeAll(vs)|;
    if !Leafless(ss) {
      ItemsFail(ss, tokens, rest, n);
    } else {
      ItemsSpend(ss, tokens, rest, n);
      UnitsUnique(ss, vs);
      assert Stream(tokens) + [] == Stream(tokens);
      StreamNotEmpty(tokens[ItemLead(ss)..]);
    }
  }

  lemma StreamNotEmpty(tokens: seq<nat>)
    requires tokens != []
    ensures Stream(tokens) != []
  {
  }

  // ----- Packs -----

  predicate NoTuples(ss: seq<Schema>) {
    forall i :: 0 <= i < |ss| ==> !ss[i].TupleOf?
  }

  /** The values come back, a matter of the types alone: behind the first tuple there is no value any more,
      and reading the headers one tuple late never runs out of size. */
  predicate Survives(ss: seq<Schema>)
    decreases |ss|
  {
    if ss == [] then true
    else if !ss[0].TupleOf? then Survives(ss[1..])
    else Leafless(ss) && !ItemSpend(ss, Tokens(ss), |Stream(Tokens(ss))|).Broke?
  }

  lemma {:induction false} Items(ss: seq<Schema>, vs: seq<Value>)
    requires HasTypes(vs, ss) && |EncodeAll(vs)| < TWO64
    ensures var r := DecodeMultiple(ss, EncodeAll(vs), |EncodeAll(vs)|);
            && (Survives(ss) <==> r.Got?)
            && (r.Got? ==> r.value == vs)
            && (r.Got? && r.rest == [] <==> NoTuples(ss))
            && (NoTuples(ss) ==> r.size == 0)
    decreases |ss|
  {
    hide DecodeImpl, Encode, Leafless, ItemSpend, Tokens;
    if ss == [] {
      assert vs == [];
    } else if ss[0].TupleOf? {
      FromFirstTuple(ss, vs);
    } else {
      var tail := EncodeAll(vs[1..]);
      assert EncodeAll(vs) == Encode(vs[0]) + tail;
      RoundTrip(ss[0], vs[0], tail, |tail|);
      NextItem(ss, EncodeAll(vs), |EncodeAll(vs)|, vs[0], tail, |tail|);
      Items(ss[1..], vs[1..]);
      assert [vs[0]] + vs[1..] == vs;
      assert NoTuples(ss) <==> NoTuples(ss[1..]);
    }
  }

  /** A non-tuple item is read like a single argument. */
  lemma NextItem(ss: seq<Schema>, d: seq<Byte>, size: nat, v: Value, d1: seq<Byte>, size1: nat)
    requires ss != [] && !ss[0].TupleOf? && DecodeImpl(ss[0], d, size) == Got(v, d1, size1)
    ensures var r := DecodeMultiple(ss[1..], d1, size1);
            DecodeMultiple(ss, d, size) == if r.Fail? then Fail(r.error) else Got([v] + r.value, r.rest, r.size)
  {
    hide DecodeImpl;
    assert DecodeItem(ss[0], d, size) == Got(v, d1, size1);
  }

  /** Several arguments come back with the input consumed exactly when none of them is a tuple. */
  lemma PackRoundTrip(ss: seq<Schema>, vs: seq<Value>)
    requires HasTypes(vs, ss) && |EncodePack(vs)| < TWO64 && |ss| != 1
    ensures DecodePack(ss, EncodePack(vs)) == Got(vs, [], 0) <==> NoTuples(ss)
  {
    hide DecodeMultiple, DecodePack, EncodeAll, Header, Survives, NoTuples;
    PackHeader(ss, vs, EncodeAll(vs));
    Items(ss, vs);
  }

  /** The values alone come back exactly for the types that survive; otherwise decoding throws. */
  lemma PackValues(ss: seq<Schema>, vs: seq<Value>)
    requires HasTypes(vs, ss) && |EncodePack(vs)| < TWO64 && |ss| != 1
    ensures var r := DecodePack(ss, EncodePack(vs));
            && (r.Got? <==> Survives(ss))
            && (r.Got? ==> r.value == vs && r.size == 0)
  {
    hide DecodeMultiple, DecodePack, EncodeAll, Header, Survives, NoTuples;
    PackHeader(ss, vs, EncodeAll(vs));
    Items(ss, vs);
  }

  lemma PackHeader(ss: seq<Schema>, vs: seq<Value>, p: seq<Byte>)
    requires HasTypes(vs, ss) && |ss| != 1 && p == EncodeAll(vs) && |p| < TWO64
    ensures var r := DecodeMultiple(ss, p, |p|);
            DecodePack(ss, EncodePack(vs)) == if r.Fail? then Fail(r.error) else Got(r.value, r.rest, 0)
  {
    hide DecodePack, DecodeMultiple, DecodeLength, Header, Encode;
    assert EncodePack(vs) == Header(0xc0, |p|) + p;
    HeaderRoundTrip(0xc0, |p|, p, |p|);
    AfterPackHeader(ss, EncodePack(vs), p);
  }

  lemma AfterPackHeader(ss: seq<Schema>, d: seq<Byte>, p: seq<Byte>)
    requires |ss| != 1 && (ss == [] ==> p == []) && DecodeLength(d, |d|) == Got((Multiple, |p|), p, |p|)
    ensures var r := DecodeMultiple(ss, p, |p|);
            DecodePack(ss, d) == if r.Fail? then Fail(r.error) else Got(r.value, r.rest, 0)
  {
    hide DecodeLength, DecodeItem, DecodeImpl;
  }

  // ----- One tuple at the end -----

  /** An empty tuple inside one-element tuples. */
  predicate Chain(ss: seq<Schema>)
    decreases ss
  {
    ss == [] || (|ss| == 1 && ss[0].TupleOf? && Chain(ss[0].elems))
  }

  /** Read from their own parent's header, only chains do not run out of size. */
  lemma {:induction false} ChainSpends(ss: seq<Schema>)
    requires Leafless(ss) && |Stream(Tokens(ss))| < TWO64
    ensures var p := |Stream(Tokens(ss))|;
            Spend(ss, [p] + Tokens(ss), |Header(0xc0, p)| + p).Broke? <==> !Chain(ss)
    decreases ss
  {
    hide Header;
    if ss != [] {
      var inner := Tokens(ss[0].elems);
      var more := Tokens(ss[1..]);
      var p, q := |Stream(Tokens(ss))|, |Stream(inner)|;
      var all := [p] + Tokens(ss);
      assert all[1..] == Tokens(ss) == [q] + inner + more;
      StreamParts(q, inner, more);
      if |ss| == 1 {
        assert ss[1..] == [] && more == [] && [q] + inner + more == [q] + inner;
        ChainSpends(ss[0].elems);
      } else {
        NothingLeft(ss[1..], all[1 + Lead(ss[0].elems)..]);
        assert Minus(p, p) == 0;
      }
    }
  }

  lemma NothingLeft(ss: seq<Schema>, tokens: seq<nat>)
    requires Leafless(ss) && ss != [] && |tokens| >= Lead(ss)
    ensures Spend(ss, tokens, 0).Broke?
  {
  }

  /** With a single tuple at the end, the values come back exactly when it is a chain. */
  lemma {:induction false} LastTuple(before: seq<Schema>, es: seq<Schema>)
    requires NoTuples(before) && (Leafless(es) ==> |Stream(Tokens(es))| < TWO64)
    ensures Survives(before + [TupleOf(es)]) <==> Chain(es)
  {
    hide Leafless, ItemSpend, Tokens, Chain;
    var ss := before + [TupleOf(es)];
    if before == [] {
      assert ss == [TupleOf(es)];
      ChainIsLeafless(es);
      OneTuple(es);
    } else {
      assert ss[1..] == before[1..] + [TupleOf(es)];
      LastTuple(before[1..], es);
    }
  }

  lemma OneTuple(es: seq<Schema>)
    ensures Leafless([TupleOf(es)]) <==> Leafless(es)
    ensures Leafless(es) && |Stream(Tokens(es))| < TWO64 ==>
              var ss := [TupleOf(es)];
              (ItemSpend(ss, Tokens(ss), |Stream(Tokens(ss))|).Broke? <==> !Chain(es))
  {
    hide Header, Spend, Stream, Chain, Tokens;
    var ss := [TupleOf(es)];
    assert ss[1..] == [];
    if Leafless(es) && |Stream(Tokens(es))| < TWO64 {
      OneTupleTokens(es);
      ChainSpends(es);
    }
  }

  lemma OneTupleTokens(es: seq<Schema>)
    requires Leafless(es) && Leafless([TupleOf(es)])
    ensures var p := |Stream(Tokens(es))|;
            Tokens([TupleOf(es)]) == [p] + Tokens(es) && |Stream([p] + Tokens(es))| == |Header(0xc0, p)| + p
  {
    hide Header, Stream;
    var ss, p := [TupleOf(es)], |Stream(Tokens(es))|;
    assert ss[1..] == [];
    assert [p] + Tokens(es) + [] == [p] + Tokens(es);
    StreamParts(p, Tokens(es), []);
    NoHeaders();
  }

  lemma {:induction false} ChainIsLeafless(ss: seq<Schema>)
    ensures Chain(ss) ==> Leafless(ss)
    decreases ss
  {
    if ss != [] && ss[0].TupleOf? { ChainIsLeafless(ss[0].elems); }
  }

  // ----- Two inputs -----

  /** The smallest pack that does not survive: a one-number tuple next to a number. */
  lemma TuplePackFails()
    ensures var vs := [Tup([Num(1)]), Num(2)];
            DecodePack([TupleOf([U64Type]), U64Type], EncodePack(vs)) == Fail(NotSingle)
  {
    var ss, vs := [TupleOf([U64Type]), U64Type], [Tup([Num(1)]), Num(2)];
    var p := SmallPack(vs);
    PackHeader(ss, vs, p);
    MisreadNumber(p);
    hide DecodeImpl, DecodePack, EncodePack, EncodeAll;
    assert DecodeTuple([U64Type], p, |p|) == Fail(NotSingle);
    assert DecodeItem(ss[0], p, |p|) == Fail(NotSingle);
    assert DecodeMultiple(ss, p, |p|) == Fail(NotSingle);
  }

  lemma SmallPack(vs: seq<Value>) returns (p: seq<Byte>)
    requires vs == [Tup([Num(1)]), Num(2)]
    ensures p == EncodeAll(vs) == [0xc1, 1, 2]
  {
    SmallNumber(1);
    SmallNumber(2);
    assert Encode(vs[0]) == EncodeList([1]);
    assert EncodeList([1]) == [0xc1, 1];
    p := EncodeAll(vs);
    assert vs[1..] == [Num(2)];
  }

  lemma SmallNumber(n: nat)
    requires 0 < n < 0x80
    ensures Encode(Num(n)) == [n] && EncodeAll([Num(n)]) == [n]
  {
    assert Minimal(n) == [n];
    assert [Num(n)][1..] == [];
  }

  lemma MisreadNumber(p: seq<Byte>)
    requires p == [0xc1, 1, 2]
    ensures DecodeImpl(U64Type, p, 3) == Fail(NotSingle)
  {
    assert DecodeLength(p, 3) == Got((Multiple, 1), p[1..], 2);
  }

  /** A number next to an empty tuple survives, with the tuple's header unread. */
  lemma EmptyTupleUnread()
    ensures DecodePack([U64Type, TupleOf([])], EncodePack([Num(1), Tup([])])) == Got([Num(1), Tup([])], [0xc0], 0)
  {
    hide DecodeImpl, DecodePack, EncodePack, EncodeAll, DecodeMultiple, Encode;
    var ss, vs := [U64Type, TupleOf([])], [Num(1), Tup([])];
    var p := OneAndEmpty(vs);
    PackHeader(ss, vs, p);
    ReadOne(p);
    SkipEmpty([0xc0], 1);
    assert ss[1..] == [TupleOf([])];
    NextItem(ss, p, 2, Num(1), [0xc0], 1);
    assert [Num(1)] + [Tup([])] == vs;
  }

  lemma OneAndEmpty(vs: seq<Value>) returns (p: seq<Byte>)
    requires vs == [Num(1), Tup([])]
    ensures p == EncodeAll(vs) == [1, 0xc0]
  {
    SmallNumber(1);
    var tail := vs[1..];
    assert tail == [Tup([])] && tail[1..] == [];
    assert Encode(tail[0]) == Header(0xc0, 0) + [] == [0xc0];
    assert EncodeAll(tail) == [0xc0] + [];
    hide Encode;
    p := EncodeAll(vs);
  }

  lemma SkipEmpty(d: seq<Byte>, size: nat)
    ensures DecodeMultiple([TupleOf([])], d, size) == Got([Tup([])], d, size)
  {
    var ss := [TupleOf([])];
    assert ss[1..] == [];
    assert DecodeItem(ss[0], d, size) == Got(Tup([]), d, size);
    assert [Tup([])] + [] == [Tup([])];
  }

  lemma ReadOne(p: seq<Byte>)
    requires p == [1, 0xc0]
    ensures DecodeImpl(U64Type, p, 2) == Got(Num(1), [0xc0], 1)
  {
    assert DecodeLength(p, 2) == Got((Single, 1), p, 2);
    assert p[..1] == [1] && p[1..] == [0xc0];
    assert [1][..0] == [];
  }
}
