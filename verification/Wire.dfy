/**
 The primitives the emitted pack and unpack functions call, for either binary format.
 Everything above this module relies on the laws below and on nothing else about the formats.
 */
module Wire {
  import opened Bytes
  import opened Floats
  import Cbor
  import MsgPack

  datatype Format = CBOR | MSGPACK

  function EncUint(f: Format, v: u64): bytes {
    match f case CBOR => Cbor.EncUint(v) case MSGPACK => MsgPack.EncUint(v)
  }

  function EncInt(f: Format, v: int): bytes
    requires -TWO_TO_THE_63 <= v
  {
    match f case CBOR => Cbor.EncInt(v) case MSGPACK => MsgPack.EncInt(v)
  }

  function EncBool(f: Format, b: bool): bytes {
    match f case CBOR => Cbor.EncBool(b) case MSGPACK => MsgPack.EncBool(b)
  }

  function EncFloat(f: Format, bits: u32): bytes {
    match f case CBOR => Cbor.EncFloat(bits) case MSGPACK => MsgPack.EncFloat(bits)
  }

  function EncDouble(f: Format, bits: u64): bytes {
    match f case CBOR => Cbor.EncDouble(bits) case MSGPACK => MsgPack.EncDouble(bits)
  }

  function EncStr(f: Format, s: bytes): bytes {
    match f case CBOR => Cbor.EncStr(s) case MSGPACK => MsgPack.EncStr(s)
  }

  function EncArrayHeader(f: Format, n: nat): bytes {
    match f case CBOR => Cbor.EncArrayHeader(n) case MSGPACK => MsgPack.EncArrayHeader(n)
  }

  function EncMapHeader(f: Format, n: nat): bytes {
    match f case CBOR => Cbor.EncMapHeader(n) case MSGPACK => MsgPack.EncMapHeader(n)
  }

  function Nil(f: Format): byte {
    match f case CBOR => Cbor.NULL case MSGPACK => MsgPack.NIL
  }

  predicate AtNil(f: Format, s: bytes) {
    s != [] && s[0] == Nil(f)
  }

  function DecInt64(f: Format, s: bytes): Res<int> {
    match f case CBOR => Cbor.DecInt64(s) case MSGPACK => MsgPack.DecInt64(s)
  }

  function DecUint64(f: Format, s: bytes): Res<int> {
    match f case CBOR => Cbor.DecUint64(s) case MSGPACK => MsgPack.DecUint64(s)
  }

  function DecNumberAsInt64(f: Format, fp: FloatOps, s: bytes): Res<int> {
    match f case CBOR => Cbor.DecNumberAsInt64(fp, s) case MSGPACK => MsgPack.DecNumberAsInt64(fp, s)
  }

  function DecNumberAsUint64(f: Format, fp: FloatOps, s: bytes): Res<int> {
    match f case CBOR => Cbor.DecNumberAsUint64(fp, s) case MSGPACK => MsgPack.DecNumberAsUint64(fp, s)
  }

  function DecDouble(f: Format, fp: FloatOps, s: bytes): Res<u64> {
    match f case CBOR => Cbor.DecDouble(fp, s) case MSGPACK => MsgPack.DecDouble(fp, s)
  }

  function DecBool(f: Format, s: bytes): Res<bool> {
    match f case CBOR => Cbor.DecBool(s) case MSGPACK => MsgPack.DecBool(s)
  }

  function DecStr(f: Format, s: bytes): (r: Res<bytes>)
    ensures r.Ok? ==> |r.val| < TWO_TO_THE_32 && |r.rest| < |s|
  {
    match f case CBOR => Cbor.DecStr(s) case MSGPACK => MsgPack.DecStr(s)
  }

  function DecArrayHeader(f: Format, s: bytes): (r: Res<nat>)
    ensures r.Ok? ==> r.val < TWO_TO_THE_32
  {
    match f case CBOR => Cbor.DecArrayHeader(s) case MSGPACK => MsgPack.DecArrayHeader(s)
  }

  function DecMapHeader(f: Format, s: bytes): (r: Res<nat>)
    ensures r.Ok? ==> r.val < TWO_TO_THE_32
  {
    match f case CBOR => Cbor.DecMapHeader(s) case MSGPACK => MsgPack.DecMapHeader(s)
  }

  /** What the enum reader looks at to tell a number from a name. */
  predicate LooksLikeInt(f: Format, b: byte) {
    match f
    case CBOR => b / 32 == Cbor.MAJOR_UINT || b / 32 == Cbor.MAJOR_NINT
    case MSGPACK => b <= MsgPack.FIXINT_MAX || b >= MsgPack.NEG_FIXINT || MsgPack.UINT8 <= b <= MsgPack.INT64
  }

  function Skip(f: Format, s: bytes): SkipR {
    match f case CBOR => Cbor.Skip(s) case MSGPACK => MsgPack.Skip(s)
  }

  function SkipMany(f: Format, s: bytes, n: nat): SkipR {
    match f case CBOR => Cbor.SkipMany(s, n) case MSGPACK => MsgPack.SkipMany(s, n)
  }

  /** One complete data item, and nothing after it. */
  predicate Item(f: Format, s: bytes) {
    Skip(f, s) == SkipR(true, [])
  }

  // ----- The laws -----

  lemma {:induction false} IntLaw(f: Format, fp: FloatOps, v: int, t: bytes)
    requires -TWO_TO_THE_63 <= v < TWO_TO_THE_63
    ensures var s := EncInt(f, v) + t;
            && DecInt64(f, s) == Ok(v, t) && DecNumberAsInt64(f, fp, s) == Ok(v, t)
            && s != [] && LooksLikeInt(f, s[0]) && !AtNil(f, s)
            && Skip(f, s) == SkipR(true, t)
  {
    if f == CBOR {
      Cbor.IntRoundTrip(v, t);
    } else {
      MsgPack.IntRoundTrip(v, t);
    }
  }

  lemma {:induction false} UintLaw(f: Format, fp: FloatOps, v: u64, t: bytes)
    ensures var s := EncUint(f, v) + t;
            && DecUint64(f, s) == Ok(v, t) && DecNumberAsUint64(f, fp, s) == Ok(v, t)
            && !AtNil(f, s) && Skip(f, s) == SkipR(true, t)
  {
    if f == CBOR {
      Cbor.UintRoundTrip(v, t);
    } else {
      MsgPack.UintRoundTrip(v, t);
    }
  }

  lemma {:induction false} BoolLaw(f: Format, b: bool, t: bytes)
    ensures var s := EncBool(f, b) + t;
            && DecBool(f, s) == Ok(b, t) && !AtNil(f, s) && Skip(f, s) == SkipR(true, t)
  {
    if f == CBOR {
      Cbor.DecodeHeadOfHead(Cbor.MAJOR_SIMPLE, if b then 21 else 20, t);
    } else {
      assert ([if b then MsgPack.TRUE else MsgPack.FALSE] + t)[1..] == t;
    }
  }

  lemma {:induction false} NilLaw(f: Format, t: bytes)
    ensures Skip(f, [Nil(f)] + t) == SkipR(true, t) && AtNil(f, [Nil(f)] + t)
  {
    if f == CBOR {
      Cbor.DecodeHeadOfHead(Cbor.MAJOR_SIMPLE, 22, t);
    } else {
      assert ([MsgPack.NIL] + t)[1..] == t;
    }
  }

  lemma {:induction false} DoubleLaw(f: Format, fp: FloatOps, bits: u64, t: bytes)
    ensures var s := EncDouble(f, bits) + t;
            && DecDouble(f, fp, s) == Ok(bits, t) && !AtNil(f, s) && Skip(f, s) == SkipR(true, t)
  {
    if f == CBOR {
      Cbor.DoubleRoundTrip(fp, bits, t);
    } else {
      MsgPack.DoubleRoundTrip(fp, bits, t);
    }
  }

  lemma {:induction false} FloatLaw(f: Format, fp: FloatOps, bits: u32, t: bytes)
    ensures var s := EncFloat(f, bits) + t;
            && DecDouble(f, fp, s) == Ok(fp.widen(bits), t) && !AtNil(f, s) && Skip(f, s) == SkipR(true, t)
  {
    if f == CBOR {
      Cbor.FloatRoundTrip(fp, bits, t);
    } else {
      MsgPack.FloatRoundTrip(fp, bits, t);
    }
  }

  lemma {:induction false} StrLaw(f: Format, x: bytes, t: bytes)
    requires |x| < TWO_TO_THE_32
    ensures var s := EncStr(f, x) + t;
            && DecStr(f, s) == Ok(x, t) && s != [] && !LooksLikeInt(f, s[0]) && !AtNil(f, s)
            && Skip(f, s) == SkipR(true, t)
  {
    assert |x| % TWO_TO_THE_32 == |x|;
    if f == CBOR {
      Cbor.StrRoundTrip(x, t);
    } else {
      MsgPack.StrRoundTrip(x, t);
      assert (EncStr(f, x) + t)[0] == MsgPack.StrHeader(|x|)[0];
    }
  }

  lemma {:induction false} ArrayHeaderLaw(f: Format, n: u32, t: bytes)
    ensures var s := EncArrayHeader(f, n) + t;
            && DecArrayHeader(f, s) == Ok(n, t) && !AtNil(f, s) && Skip(f, s) == SkipMany(f, t, n)
  {
    assert n % TWO_TO_THE_32 == n;
    if f == CBOR {
      Cbor.ArrayHeaderRoundTrip(n, t);
    } else {
      MsgPack.ArrayHeaderRoundTrip(n, t);
    }
  }

  lemma {:induction false} MapHeaderLaw(f: Format, n: u32, t: bytes)
    ensures var s := EncMapHeader(f, n) + t;
            && s != [] && DecMapHeader(f, s) == Ok(n, t) && !AtNil(f, s) && Skip(f, s) == SkipMany(f, t, 2 * n)
  {
    assert n % TWO_TO_THE_32 == n;
    if f == CBOR {
      Cbor.MapHeaderRoundTrip(n, t);
    } else {
      MsgPack.MapHeaderRoundTrip(n, t);
    }
  }

  /** An int is never taken for a name. */
  lemma {:induction false} IntIsNoStr(f: Format, v: int, t: bytes)
    requires -TWO_TO_THE_63 <= v < TWO_TO_THE_63
    ensures DecStr(f, EncInt(f, v) + t) == Err
  {
    if f == CBOR {
      Cbor.DecodeHeadOfHead(if v >= 0 then 0 else 1, if v >= 0 then v else -(v + 1), t);
    } else {
      assert (EncInt(f, v) + t)[0] == EncInt(f, v)[0];
    }
  }

  lemma {:induction false} ItemLaw(f: Format, s: bytes, t: bytes)
    requires Item(f, s)
    ensures Skip(f, s + t) == SkipR(true, t)
  {
    assert [] + t == t;
    if f == CBOR {
      Cbor.SkipExtends(s, t);
    } else {
      MsgPack.SkipExtends(s, t);
    }
  }

  lemma {:induction false} TextItemLaw(f: Format, s: bytes, t: bytes)
    requires Item(f, s)
    ensures DecStr(f, s + t).Ok? <==> DecStr(f, s).Ok?
    ensures DecStr(f, s + t).Ok? ==> DecStr(f, s + t).rest == t
  {
    if f == CBOR {
      Cbor.TextItem(s, t);
    } else {
      MsgPack.TextItem(s, t);
    }
  }

  lemma {:induction false} SkipManyStep(f: Format, s: bytes, n: nat)
    ensures SkipMany(f, s, 0) == SkipR(true, s)
    ensures Skip(f, s).ok ==> SkipMany(f, s, n + 1) == SkipMany(f, Skip(f, s).rest, n)
  {
  }

  /** A key and a value are two items. */
  lemma {:induction false} SkipPair(f: Format, s: bytes, u: bytes, n: nat)
    requires Skip(f, s).ok && Skip(f, Skip(f, s).rest) == SkipR(true, u)
    ensures SkipMany(f, s, 2 * (1 + n)) == SkipMany(f, u, 2 * n)
  {
    hide Skip, SkipMany;
    var m := 2 * n + 1;
    assert 2 * (1 + n) == m + 1;
    SkipManyStep(f, s, m);
    SkipManyStep(f, Skip(f, s).rest, 2 * n);
  }
}
