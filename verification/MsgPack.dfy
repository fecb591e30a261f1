/** The MessagePack runtime: typed writers, readers and the skipper, as functions of the unread bytes. */
module MsgPack {
  import opened Bytes
  import opened Floats

  const FIXINT_MAX: byte := 0x7f
  const NEG_FIXINT: byte := 0xe0
  const NIL: byte := 0xc0
  const FALSE: byte := 0xc2
  const TRUE: byte := 0xc3
  const FLOAT32: byte := 0xca
  const FLOAT64: byte := 0xcb
  const UINT8: byte := 0xcc
  const UINT16: byte := 0xcd
  const UINT32: byte := 0xce
  const UINT64: byte := 0xcf
  const INT8: byte := 0xd0
  const INT16: byte := 0xd1
  const INT32: byte := 0xd2
  const INT64: byte := 0xd3
  const FIXSTR: byte := 0xa0
  const STR8: byte := 0xd9
  const STR16: byte := 0xda
  const STR32: byte := 0xdb
  const FIXARRAY: byte := 0x90
  const ARRAY16: byte := 0xdc
  const ARRAY32: byte := 0xdd
  const FIXMAP: byte := 0x80
  const MAP16: byte := 0xde
  const MAP32: byte := 0xdf

  predicate IsFixStr(b: byte) { b / 32 == FIXSTR / 32 }
  predicate IsFixArray(b: byte) { b / 16 == FIXARRAY / 16 }
  predicate IsFixMap(b: byte) { b / 16 == FIXMAP / 16 }

  // ----- Encoding -----

  function EncUint(v: nat): (s: bytes) {
    if v <= 0x7f then [v]
    else if v <= 0xff then [UINT8, v]
    else if v <= 0xffff then [UINT16] + BE(v, 2)
    else if v <= 0xffff_ffff then [UINT32] + BE(v, 4)
    else [UINT64] + BE(v, 8)
  }

  // The casts to unsigned types add the modulus to a negative value.
  function EncInt(v: int): bytes
    requires -TWO_TO_THE_63 <= v
  {
    if v >= 0 then EncUint(v)
    else if v >= -32 then [v + 0x100]
    else if v >= -0x80 then [INT8, v + 0x100]
    else if v >= -0x8000 then [INT16] + BE(v + TWO_TO_THE_16, 2)
    else if v >= -0x8000_0000 then [INT32] + BE(v + TWO_TO_THE_32, 4)
    else [INT64] + BE(v + TWO_TO_THE_64, 8)
  }

  function EncBool(b: bool): bytes {
    [if b then TRUE else FALSE]
  }

  function EncFloat(bits: u32): bytes {
    [FLOAT32] + BE(bits, 4)
  }

  function EncDouble(bits: u64): bytes {
    [FLOAT64] + BE(bits, 8)
  }

  function StrHeader(len: u32): bytes {
    if len <= 0x1f then [FIXSTR + len]
    else if len <= 0xff then [STR8, len]
    else if len <= 0xffff then [STR16] + BE(len, 2)
    else [STR32] + BE(len, 4)
  }

  function EncStr(s: bytes): bytes {
    var len := |s| % TWO_TO_THE_32;
    StrHeader(len) + s[..len]
  }

  function EncArrayHeader(n: nat): bytes {
    var count := n % TWO_TO_THE_32;
    if count <= 0xf then [FIXARRAY + count]
    else if count <= 0xffff then [ARRAY16] + BE(count, 2)
    else [ARRAY32] + BE(count, 4)
  }

  function EncMapHeader(n: nat): bytes {
    var count := n % TWO_TO_THE_32;
    if count <= 0xf then [FIXMAP + count]
    else if count <= 0xffff then [MAP16] + BE(count, 2)
    else [MAP32] + BE(count, 4)
  }

  // ----- Decoding -----

  /** Reads a `w`-octet unsigned integer that follows a marker. */
  function ReadBE(s: bytes, w: nat): (r: Res<nat>)
    ensures r.Ok? ==> r.val < Pow256(w) && |r.rest| == |s| - w
  {
    if |s| < w then Err
    else (FromBEBound(s[..w]); Ok(FromBE(s[..w]), s[w..]))
  }

  /** The two's-complement reading of a `w`-octet pattern. */
  function Signed(v: nat, w: nat): int {
    if v < Pow256(w) / 2 then v else v - Pow256(w)
  }

  function ReadSigned(s: bytes, w: nat): Res<int> {
    match ReadBE(s, w)
    case Err => Err
    case Ok(v, rest) => Ok(Signed(v, w), rest)
  }

  // A uint64 above the int64 range wraps when stored into an int64_t.
  function DecInt64(s: bytes): Res<int> {
    if s == [] then Err
    else
      var b, t := s[0], s[1..];
      if b <= FIXINT_MAX then Ok(b, t)
      else if b >= NEG_FIXINT then Ok(b - 0x100, t)
      else if b == UINT8 then ReadBE(t, 1)
      else if b == UINT16 then ReadBE(t, 2)
      else if b == UINT32 then ReadBE(t, 4)
      else if b == UINT64 then ReadSigned(t, 8)
      else if b == INT8 then ReadSigned(t, 1)
      else if b == INT16 then ReadSigned(t, 2)
      else if b == INT32 then ReadSigned(t, 4)
      else if b == INT64 then ReadSigned(t, 8)
      else Err
  }

  // A negative value wraps when stored into a uint64_t; a negative fixint is rejected.
  function DecUint64(s: bytes): Res<nat> {
    if s == [] then Err
    else
      var b, t := s[0], s[1..];
      if b <= FIXINT_MAX then Ok(b, t)
      else if b == UINT8 then ReadBE(t, 1)
      else if b == UINT16 then ReadBE(t, 2)
      else if b == UINT32 then ReadBE(t, 4)
      else if b == UINT64 || b == INT64 then ReadBE(t, 8)
      else if b == INT8 || b == INT16 || b == INT32 then
        match ReadSigned(t, if b == INT8 then 1 else if b == INT16 then 2 else 4)
        case Err => Err
        case Ok(v, rest) => Ok(v % TWO_TO_THE_64, rest)
      else Err
  }

  function DecBool(s: bytes): Res<bool> {
    if s == [] then Err
    else if s[0] == TRUE then Ok(true, s[1..])
    else if s[0] == FALSE then Ok(false, s[1..])
    else Err
  }

  function DecDouble(fp: FloatOps, s: bytes): Res<u64> {
    if s == [] then Err
    else if s[0] == FLOAT64 then
      Pow256Values();
      match ReadBE(s[1..], 8)
      case Err => Err
      case Ok(u, rest) => Ok(u, rest)
    else if s[0] == FLOAT32 then
      Pow256Values();
      match ReadBE(s[1..], 4)
      case Err => Err
      case Ok(u, rest) => Ok(fp.widen(u), rest)
    else
      match DecInt64(s)
      case Err => Err
      case Ok(i, rest) => Ok(fp.ofSigned(i), rest)
  }

  function DecNumberAsInt64(fp: FloatOps, s: bytes): Res<int> {
    if s != [] && (s[0] == FLOAT32 || s[0] == FLOAT64) then
      match DecDouble(fp, s)
      case Err => Err
      case Ok(d, rest) => Ok(fp.toSigned(d), rest)
    else DecInt64(s)
  }

  function DecNumberAsUint64(fp: FloatOps, s: bytes): Res<int> {
    if s != [] && (s[0] == FLOAT32 || s[0] == FLOAT64) then
      match DecDouble(fp, s)
      case Err => Err
      case Ok(d, rest) => Ok(fp.toUnsigned(d), rest)
    else DecUint64(s)
  }

  /** The length of the string whose marker is at the front. */
  function DecStrLength(s: bytes): (r: Res<nat>)
    ensures r.Ok? ==> r.val < TWO_TO_THE_32 && |r.rest| < |s|
  {
    if s == [] then Err
    else
      var b, t := s[0], s[1..];
      Pow256Values();
      if IsFixStr(b) then Ok(b % 32, t)
      else if b == STR8 then ReadBE(t, 1)
      else if b == STR16 then ReadBE(t, 2)
      else if b == STR32 then ReadBE(t, 4)
      else Err
  }

  function DecStr(s: bytes): (r: Res<bytes>)
    ensures r.Ok? ==> |r.val| < TWO_TO_THE_32 && |r.rest| < |s|
  {
    match DecStrLength(s)
    case Err => Err
    case Ok(len, rest) => if len > |rest| then Err else Ok(rest[..len], rest[len..])
  }

  function DecArrayHeader(s: bytes): (r: Res<nat>)
    ensures r.Ok? ==> r.val < TWO_TO_THE_32 && |r.rest| < |s|
  {
    if s == [] then Err
    else
      var b, t := s[0], s[1..];
      Pow256Values();
      if IsFixArray(b) then Ok(b % 16, t)
      else if b == ARRAY16 then ReadBE(t, 2)
      else if b == ARRAY32 then ReadBE(t, 4)
      else Err
  }

  function DecMapHeader(s: bytes): (r: Res<nat>)
    ensures r.Ok? ==> r.val < TWO_TO_THE_32 && |r.rest| < |s|
  {
    if s == [] then Err
    else
      var b, t := s[0], s[1..];
      Pow256Values();
      if IsFixMap(b) then Ok(b % 16, t)
      else if b == MAP16 then ReadBE(t, 2)
      else if b == MAP32 then ReadBE(t, 4)
      else Err
  }

  // ----- Skipping -----

  /** Octets of fixed payload after a marker that is no string, array or map; -1 when unknown. */
  function PayloadWidth(b: byte): (w: int)
    ensures -1 <= w <= 8
  {
    if b == NIL || b == FALSE || b == TRUE then 0
    else if b == UINT8 || b == INT8 then 1
    else if b == UINT16 || b == INT16 then 2
    else if b == UINT32 || b == INT32 || b == FLOAT32 then 4
    else if b == UINT64 || b == INT64 || b == FLOAT64 then 8
    else -1
  }

  function SkipBytes(s: bytes, n: nat): (r: SkipR)
    ensures |r.rest| <= |s|
  {
    if n > |s| then SkipR(false, s) else SkipR(true, s[n..])
  }

  function SkipString(s: bytes, w: nat): (r: SkipR)
    ensures |r.rest| <= |s|
  {
    match ReadBE(s, w)
    case Err => SkipR(false, s)
    case Ok(len, rest) => SkipBytes(rest, len)
  }

  /** Skips one value. */
  function Skip(s: bytes): (r: SkipR)
    ensures |r.rest| <= |s|
    ensures r.ok ==> |r.rest| < |s|
    decreases |s|, 0
  {
    if s == [] then SkipR(false, s)
    else
      var b, t := s[0], s[1..];
      if b <= FIXINT_MAX || b >= NEG_FIXINT then SkipR(true, t)
      else if IsFixStr(b) then SkipBytes(t, b % 32)
      else if IsFixArray(b) then SkipMany(t, b % 16)
      else if IsFixMap(b) then SkipMany(t, 2 * (b % 16))
      else if b == STR8 then SkipString(t, 1)
      else if b == STR16 then SkipString(t, 2)
      else if b == STR32 then SkipString(t, 4)
      else if b == ARRAY16 || b == ARRAY32 || b == MAP16 || b == MAP32 then
        match ReadBE(t, if b == ARRAY16 || b == MAP16 then 2 else 4)
        case Err => SkipR(false, t)
        case Ok(count, rest) =>
          SkipMany(rest, if b == ARRAY16 || b == ARRAY32 then count else 2 * count)
      else
        var w := PayloadWidth(b);
        if w == -1 then SkipR(false, t) else SkipBytes(t, w)
  }

  /** Skips `n` values, stopping at the first that fails. */
  function SkipMany(s: bytes, n: nat): (r: SkipR)
    ensures |r.rest| <= |s|
    decreases |s|, 1
  {
    if n == 0 then SkipR(true, s)
    else
      var r := Skip(s);
      if r.ok then SkipMany(r.rest, n - 1) else r
  }

  // ----- Laws -----

  lemma {:induction false} ReadBEOfBE(v: nat, w: nat, t: bytes)
    requires v < Pow256(w)
    ensures ReadBE(BE(v, w) + t, w) == Ok(v, t)
  {
    FromBEOfBE(v, w);
    assert (BE(v, w) + t)[..w] == BE(v, w) && (BE(v, w) + t)[w..] == t;
  }

  /** A marker followed by a `w`-octet integer reads back after the marker is dropped. */
  lemma {:induction false} MarkerThenBE(b: byte, v: nat, w: nat, t: bytes)
    requires v < Pow256(w)
    ensures var s := [b] + BE(v, w) + t; s[0] == b && ReadBE(s[1..], w) == Ok(v, t)
  {
    assert ([b] + BE(v, w) + t)[1..] == BE(v, w) + t;
    ReadBEOfBE(v, w, t);
  }

  lemma {:induction false} OneOctet(b: byte, v: byte)
    ensures [b, v] == [b] + BE(v, 1)
  {
    assert BE(v, 1) == BE(v / 256, 0) + [v % 256];
  }

  /** A marker with a fixed payload, read and skipped. */
  lemma {:induction false} Payload(b: byte, v: nat, w: nat, t: bytes)
    requires w > 0 && PayloadWidth(b) == w && v < Pow256(w)
    ensures var s := [b] + BE(v, w) + t;
            s[0] == b && ReadBE(s[1..], w) == Ok(v, t) && Skip(s) == SkipR(true, t)
  {
    hide SkipMany, BE, FromBE, Pow256;
    MarkerThenBE(b, v, w, t);
    assert ([b] + BE(v, w) + t)[1..][w..] == t;
  }

  lemma {:induction false} UintRoundTrip(v: u64, t: bytes)
    ensures DecUint64(EncUint(v) + t) == Ok(v, t)
    ensures v < TWO_TO_THE_63 ==> DecInt64(EncUint(v) + t) == Ok(v, t)
    ensures Skip(EncUint(v) + t) == SkipR(true, t)
  {
    Pow256Values();
    hide SkipMany, BE, FromBE, Pow256, ReadBE;
    if v <= 0x7f {
      assert ([v] + t)[1..] == t;
    } else if v <= 0xff {
      OneOctet(UINT8, v);
      Payload(UINT8, v, 1, t);
    } else if v <= 0xffff {
      Payload(UINT16, v, 2, t);
    } else if v <= 0xffff_ffff {
      Payload(UINT32, v, 4, t);
    } else {
      Payload(UINT64, v, 8, t);
    }
  }

  lemma {:induction false} IntRoundTrip(v: int, t: bytes)
    requires -TWO_TO_THE_63 <= v < TWO_TO_THE_63
    ensures DecInt64(EncInt(v) + t) == Ok(v, t)
    ensures Skip(EncInt(v) + t) == SkipR(true, t)
  {
    Pow256Values();
    hide SkipMany, BE, FromBE, Pow256, ReadBE;
    if v >= 0 {
      UintRoundTrip(v, t);
    } else if v >= -32 {
      assert ([v + 0x100] + t)[1..] == t;
    } else if v >= -0x80 {
      OneOctet(INT8, v + 0x100);
      Payload(INT8, v + 0x100, 1, t);
    } else if v >= -0x8000 {
      Payload(INT16, v + TWO_TO_THE_16, 2, t);
    } else if v >= -0x8000_0000 {
      Payload(INT32, v + TWO_TO_THE_32, 4, t);
    } else {
      Payload(INT64, v + TWO_TO_THE_64, 8, t);
    }
  }

  lemma {:induction false} StrRoundTrip(x: bytes, t: bytes)
    requires |x| < TWO_TO_THE_32
    ensures DecStr(EncStr(x) + t) == Ok(x, t)
    ensures Skip(EncStr(x) + t) == SkipR(true, t)
  {
    hide SkipMany, BE, FromBE, ReadBE;
    Pow256Values();
    var len := |x|;
    assert len % TWO_TO_THE_32 == len && x[..len] == x;
    assert EncStr(x) + t == StrHeader(len) + (x + t);
    assert (x + t)[..len] == x && (x + t)[len..] == t;
    if len <= 0x1f {
      assert (StrHeader(len) + (x + t))[1..] == x + t;
    } else if len <= 0xff {
      OneOctet(STR8, len);
      MarkerThenBE(STR8, len, 1, x + t);
    } else if len <= 0xffff {
      MarkerThenBE(STR16, len, 2, x + t);
    } else {
      MarkerThenBE(STR32, len, 4, x + t);
    }
  }

  lemma {:induction false} ArrayHeaderRoundTrip(n: u32, t: bytes)
    ensures DecArrayHeader(EncArrayHeader(n) + t) == Ok(n, t)
    ensures Skip(EncArrayHeader(n) + t) == SkipMany(t, n)
  {
    hide SkipMany, SkipString, SkipBytes, BE, FromBE, ReadBE;
    Pow256Values();
    assert n % TWO_TO_THE_32 == n;
    if n <= 0xf {
      assert ([FIXARRAY + n] + t)[1..] == t;
    } else if n <= 0xffff {
      MarkerThenBE(ARRAY16, n, 2, t);
    } else {
      MarkerThenBE(ARRAY32, n, 4, t);
    }
  }

  lemma {:induction false} MapHeaderRoundTrip(n: u32, t: bytes)
    ensures DecMapHeader(EncMapHeader(n) + t) == Ok(n, t)
    ensures Skip(EncMapHeader(n) + t) == SkipMany(t, 2 * n)
  {
    hide SkipMany, SkipString, SkipBytes, BE, FromBE, ReadBE;
    Pow256Values();
    assert n % TWO_TO_THE_32 == n;
    if n <= 0xf {
      assert ([FIXMAP + n] + t)[1..] == t;
    } else if n <= 0xffff {
      MarkerThenBE(MAP16, n, 2, t);
    } else {
      MarkerThenBE(MAP32, n, 4, t);
    }
  }

  lemma {:induction false} DoubleRoundTrip(fp: FloatOps, bits: u64, t: bytes)
    ensures DecDouble(fp, EncDouble(bits) + t) == Ok(bits, t)
    ensures Skip(EncDouble(bits) + t) == SkipR(true, t)
  {
    Pow256Values();
    hide SkipMany, BE, FromBE, Pow256, ReadBE;
    Payload(FLOAT64, bits, 8, t);
  }

  /** A float is read through a double. */
  lemma {:induction false} FloatRoundTrip(fp: FloatOps, bits: u32, t: bytes)
    ensures DecDouble(fp, EncFloat(bits) + t) == Ok(fp.widen(bits), t)
    ensures Skip(EncFloat(bits) + t) == SkipR(true, t)
  {
    Pow256Values();
    hide SkipMany, BE, FromBE, Pow256, ReadBE;
    Payload(FLOAT32, bits, 4, t);
  }

  // ----- Skipping does not look past the value -----

  lemma {:induction false} ReadBEExtends(s: bytes, w: nat, t: bytes)
    requires ReadBE(s, w).Ok?
    ensures ReadBE(s + t, w) == Ok(ReadBE(s, w).val, ReadBE(s, w).rest + t)
  {
    assert (s + t)[..w] == s[..w] && (s + t)[w..] == s[w..] + t;
  }

  lemma {:induction false} SkipBytesExtends(s: bytes, n: nat, t: bytes)
    requires SkipBytes(s, n).ok
    ensures SkipBytes(s + t, n) == SkipR(true, SkipBytes(s, n).rest + t)
  {
    assert (s + t)[n..] == s[n..] + t;
  }

  /** Whether a complete value is a string does not depend on what follows it. */
  lemma {:induction false} TextItem(s: bytes, t: bytes)
    requires Skip(s) == SkipR(true, [])
    ensures DecStr(s + t).Ok? <==> DecStr(s).Ok?
    ensures DecStr(s + t).Ok? ==> DecStr(s + t).rest == t
  {
    hide SkipMany, Skip, PayloadWidth, ReadBE;
    var b, u := s[0], s[1..];
    assert (s + t)[0] == b && (s + t)[1..] == u + t;
    if IsFixStr(b) {
      SkippedString(s);
      assert (u + t)[b % 32..] == u[b % 32..] + t;
    } else if b == STR8 || b == STR16 || b == STR32 {
      var w := if b == STR8 then 1 else if b == STR16 then 2 else 4;
      SkippedString(s);
      ReadBEExtends(u, w, t);
      var r := ReadBE(u, w);
      assert (r.rest + t)[r.val..] == r.rest[r.val..] + t;
    }
  }

  /** A string skipped to the end of the bytes has just its octets left behind its length. */
  lemma {:induction false} SkippedString(s: bytes)
    requires s != [] && Skip(s) == SkipR(true, [])
    ensures IsFixStr(s[0]) ==> |s[1..]| == s[0] % 32
    ensures s[0] == STR8 || s[0] == STR16 || s[0] == STR32 ==>
              var r := ReadBE(s[1..], if s[0] == STR8 then 1 else if s[0] == STR16 then 2 else 4);
              r.Ok? && |r.rest| == r.val
  {
    hide SkipMany, PayloadWidth, ReadBE;
  }

  lemma {:induction false} SkipExtends(s: bytes, t: bytes)
    requires Skip(s).ok
    ensures Skip(s + t) == SkipR(true, Skip(s).rest + t)
    decreases |s|, 0
  {
    var b, u := s[0], s[1..];
    assert (s + t)[0] == b && (s + t)[1..] == u + t;
    if b <= FIXINT_MAX || b >= NEG_FIXINT {
    } else if IsFixStr(b) {
      SkipBytesExtends(u, b % 32, t);
    } else if IsFixArray(b) {
      SkipManyExtends(u, b % 16, t);
    } else if IsFixMap(b) {
      SkipManyExtends(u, 2 * (b % 16), t);
    } else if b == STR8 || b == STR16 || b == STR32 {
      var w := if b == STR8 then 1 else if b == STR16 then 2 else 4;
      ReadBEExtends(u, w, t);
      SkipBytesExtends(ReadBE(u, w).rest, ReadBE(u, w).val, t);
    } else if b == ARRAY16 || b == ARRAY32 || b == MAP16 || b == MAP32 {
      var w := if b == ARRAY16 || b == MAP16 then 2 else 4;
      ReadBEExtends(u, w, t);
      var count := ReadBE(u, w).val;
      SkipManyExtends(ReadBE(u, w).rest, if b == ARRAY16 || b == ARRAY32 then count else 2 * count, t);
    } else {
      SkipBytesExtends(u, PayloadWidth(b), t);
    }
  }

  lemma {:induction false} SkipManyExtends(s: bytes, n: nat, t: bytes)
    requires SkipMany(s, n).ok
    ensures SkipMany(s + t, n) == SkipR(true, SkipMany(s, n).rest + t)
    decreases |s|, 1
  {
    if n > 0 {
      SkipExtends(s, t);
      SkipManyExtends(Skip(s).rest, n - 1, t);
    }
  }
}
