/** The CBOR runtime: heads, typed readers and the skipper, as functions of the unread bytes. */
module Cbor {
  import opened Bytes
  import opened Floats

  const MAJOR_UINT := 0
  const MAJOR_NINT := 1
  const MAJOR_BSTR := 2
  const MAJOR_TSTR := 3
  const MAJOR_ARRAY := 4
  const MAJOR_MAP := 5
  const MAJOR_TAG := 6
  const MAJOR_SIMPLE := 7

  const FALSE: byte := 0xf4
  const TRUE: byte := 0xf5
  const NULL: byte := 0xf6
  const FLOAT32: byte := 0xfa
  const FLOAT64: byte := 0xfb

  // ----- Encoding -----

  function Head(major: nat, val: nat): (s: bytes)
    requires major < 8
    ensures s != [] && s[0] / 32 == major
  {
    if val <= 23 then [major * 32 + val]
    else if val <= 0xff then [major * 32 + 24, val]
    else if val <= 0xffff then [major * 32 + 25] + BE(val, 2)
    else if val <= 0xffff_ffff then [major * 32 + 26] + BE(val, 4)
    else [major * 32 + 27] + BE(val, 8)
  }

  function EncUint(v: nat): bytes {
    Head(MAJOR_UINT, v)
  }

  function EncInt(v: int): bytes {
    if v >= 0 then Head(MAJOR_UINT, v) else Head(MAJOR_NINT, -(v + 1))
  }

  function EncBool(b: bool): bytes {
    [if b then TRUE else FALSE]
  }

  function EncFloat(bits: u32): bytes {
    [FLOAT32] + BE(bits, 4)
  }

  function EncDouble(bits: u64): bytes {
    [FLOAT64] + BE(bits, 8)
  }

  // The length argument is a uint32_t.
  function EncStr(s: bytes): bytes {
    var len := |s| % TWO_TO_THE_32;
    Head(MAJOR_TSTR, len) + s[..len]
  }

  function EncArrayHeader(count: nat): bytes {
    Head(MAJOR_ARRAY, count % TWO_TO_THE_32)
  }

  function EncMapHeader(count: nat): bytes {
    Head(MAJOR_MAP, count % TWO_TO_THE_32)
  }

  // ----- Decoding -----

  datatype HeadR = HeadOk(major: nat, val: nat, rest: bytes) | HeadErr(rest: bytes)

  /** Octets the argument takes after the initial byte; None for reserved and indefinite forms. */
  function ArgWidth(ai: nat): (w: int)
    ensures w == -1 || w in {0, 1, 2, 4, 8}
  {
    if ai <= 23 then 0
    else if ai == 24 then 1
    else if ai == 25 then 2
    else if ai == 26 then 4
    else if ai == 27 then 8
    else -1
  }

  function DecodeHead(s: bytes): (r: HeadR)
    ensures r.HeadOk? ==> |r.rest| < |s| && r.major < 8 && r.val < TWO_TO_THE_64
    ensures |r.rest| <= |s|
  {
    if s == [] then HeadErr(s)
    else
      var w := ArgWidth(s[0] % 32);
      if w == -1 || |s| < 1 + w then HeadErr(s[1..])
      else if w == 0 then HeadOk(s[0] / 32, s[0] % 32, s[1..])
      else
        FromBEBound(s[1..1 + w]);
        Pow256Values();
        HeadOk(s[0] / 32, FromBE(s[1..1 + w]), s[1 + w..])
  }

  function DecUint64(s: bytes): Res<nat> {
    match DecodeHead(s)
    case HeadErr(_) => Err
    case HeadOk(major, val, rest) => if major == MAJOR_UINT then Ok(val, rest) else Err
  }

  function DecInt64(s: bytes): (r: Res<int>)
    ensures r.Ok? ==> -TWO_TO_THE_63 <= r.val < TWO_TO_THE_63
  {
    match DecodeHead(s)
    case HeadErr(_) => Err
    case HeadOk(major, val, rest) =>
      if major == MAJOR_UINT && val < TWO_TO_THE_63 then Ok(val, rest)
      else if major == MAJOR_NINT && val < TWO_TO_THE_63 then Ok(-1 - val, rest)
      else Err
  }

  function DecBool(s: bytes): Res<bool> {
    if s == [] then Err
    else if s[0] == TRUE then Ok(true, s[1..])
    else if s[0] == FALSE then Ok(false, s[1..])
    else Err
  }

  function DecDouble(fp: FloatOps, s: bytes): Res<u64> {
    if s == [] then Err
    else if s[0] == FLOAT64 then
      if |s| < 9 then Err
      else (FromBEBound(s[1..9]); Pow256Values(); Ok(FromBE(s[1..9]), s[9..]))
    else if s[0] == FLOAT32 then
      if |s| < 5 then Err
      else (FromBEBound(s[1..5]); Pow256Values(); Ok(fp.widen(FromBE(s[1..5])), s[5..]))
    else
      match DecodeHead(s)
      case HeadErr(_) => Err
      case HeadOk(major, val, rest) =>
        if major == MAJOR_UINT then Ok(fp.ofUnsigned(val), rest)
        else if major == MAJOR_NINT then Ok(fp.ofNegative(val), rest)
        else Err
  }

  function DecNumberAsInt64(fp: FloatOps, s: bytes): Res<int> {
    if s == [] then Err
    else if s[0] == FLOAT32 || s[0] == FLOAT64 then
      match DecDouble(fp, s)
      case Err => Err
      case Ok(d, rest) => Ok(fp.toSigned(d), rest)
    else DecInt64(s)
  }

  function DecNumberAsUint64(fp: FloatOps, s: bytes): Res<int> {
    if s == [] then Err
    else if s[0] == FLOAT32 || s[0] == FLOAT64 then
      match DecDouble(fp, s)
      case Err => Err
      case Ok(d, rest) => Ok(fp.toUnsigned(d), rest)
    else DecUint64(s)
  }

  // The reported length is truncated to a uint32_t, the reader moves by the whole argument.
  function DecStr(s: bytes): (r: Res<bytes>)
    ensures r.Ok? ==> |r.val| < TWO_TO_THE_32 && |r.rest| < |s|
  {
    match DecodeHead(s)
    case HeadErr(_) => Err
    case HeadOk(major, val, rest) =>
      if major != MAJOR_TSTR || val > |rest| then Err
      else Ok(rest[..val % TWO_TO_THE_32], rest[val..])
  }

  function DecHeader(want: nat, s: bytes): (r: Res<nat>)
    ensures r.Ok? ==> r.val < TWO_TO_THE_32 && |r.rest| < |s|
  {
    match DecodeHead(s)
    case HeadErr(_) => Err
    case HeadOk(major, val, rest) =>
      if major == want then Ok(val % TWO_TO_THE_32, rest) else Err
  }

  function DecArrayHeader(s: bytes): Res<nat> {
    DecHeader(MAJOR_ARRAY, s)
  }

  function DecMapHeader(s: bytes): Res<nat> {
    DecHeader(MAJOR_MAP, s)
  }

  // ----- Skipping -----

  /** Skips one data item. */
  function Skip(s: bytes): (r: SkipR)
    ensures |r.rest| <= |s|
    ensures r.ok ==> |r.rest| < |s|
    decreases |s|, 0
  {
    match DecodeHead(s)
    case HeadErr(rest) => SkipR(false, rest)
    case HeadOk(major, val, rest) =>
      if major == MAJOR_BSTR || major == MAJOR_TSTR then
        if val > |rest| then SkipR(false, rest) else SkipR(true, rest[val..])
      else if major == MAJOR_ARRAY then SkipMany(rest, val)
      else if major == MAJOR_MAP then SkipMany(rest, 2 * val)
      else if major == MAJOR_TAG then Skip(rest)
      else SkipR(true, rest)
  }

  /** Skips `n` data items, stopping at the first that fails. */
  function SkipMany(s: bytes, n: nat): (r: SkipR)
    ensures |r.rest| <= |s|
    decreases |s|, 1
  {
    if n == 0 then SkipR(true, s)
    else
      var r := Skip(s);
      if r.ok then SkipMany(r.rest, n - 1) else r
  }

  // ----- Laws of heads -----

  lemma {:induction false} DecodeHeadOfHead(major: nat, val: nat, t: bytes)
    requires major < 8 && val < TWO_TO_THE_64
    ensures DecodeHead(Head(major, val) + t) == HeadOk(major, val, t)
  {
    hide BE, FromBE, DecodeHead;
    Pow256Values();
    if val <= 23 {
      ShortHeadReads(major, val, t);
    } else if val <= 0xff {
      OneOctet(val);
      assert [major * 32 + 24, val] == [major * 32 + 24] + BE(val, 1);
      WideHeadReads(major, 24, 1, val, t);
    } else if val <= 0xffff {
      WideHeadReads(major, 25, 2, val, t);
    } else if val <= 0xffff_ffff {
      WideHeadReads(major, 26, 4, val, t);
    } else {
      WideHeadReads(major, 27, 8, val, t);
    }
  }

  lemma {:induction false} OneOctet(val: nat)
    requires val <= 0xff
    ensures BE(val, 1) == [val]
  {
    assert BE(val, 1) == BE(val / 256, 0) + [val % 256];
  }

  lemma {:induction false} ShortHeadReads(major: nat, val: nat, t: bytes)
    requires major < 8 && val <= 23
    ensures DecodeHead([major * 32 + val] + t) == HeadOk(major, val, t)
  {
    var s := [major * 32 + val] + t;
    assert s[1..] == t;
  }

  lemma {:induction false} WideHeadReads(major: nat, ai: nat, w: nat, val: nat, t: bytes)
    requires major < 8 && 24 <= ai <= 27 && ArgWidth(ai) == w && val < Pow256(w)
    ensures DecodeHead([major * 32 + ai] + BE(val, w) + t) == HeadOk(major, val, t)
  {
    hide BE, FromBE, Pow256;
    var s := [major * 32 + ai] + BE(val, w) + t;
    FromBEOfBE(val, w);
    InitialOctet(major, ai);
    assert s[0] == major * 32 + ai;
    assert s[1..1 + w] == BE(val, w);
    assert s[1 + w..] == t;
  }

  lemma {:induction false} InitialOctet(major: nat, ai: nat)
    requires ai < 32
    ensures (major * 32 + ai) / 32 == major && (major * 32 + ai) % 32 == ai
  {
  }

  /** No other bytes that decode to the same head are shorter than the encoder's. */
  lemma {:induction false} HeadIsShortest(s: bytes)
    requires DecodeHead(s).HeadOk?
    ensures var d := DecodeHead(s); |Head(d.major, d.val)| <= |s| - |d.rest|
  {
    var w := ArgWidth(s[0] % 32);
    if w > 0 {
      FromBEBound(s[1..1 + w]);
      Pow256Values();
    }
  }

  /** What a head decodes to does not depend on the bytes after it. */
  lemma {:induction false} DecodeHeadExtends(s: bytes, t: bytes)
    requires DecodeHead(s).HeadOk?
    ensures var d := DecodeHead(s); DecodeHead(s + t) == HeadOk(d.major, d.val, d.rest + t)
  {
    var w := ArgWidth(s[0] % 32);
    assert (s + t)[1..1 + w] == s[1..1 + w] && (s + t)[1 + w..] == s[1 + w..] + t;
  }

  // ----- Laws of values -----

  lemma {:induction false} UintRoundTrip(v: u64, t: bytes)
    ensures DecUint64(EncUint(v) + t) == Ok(v, t)
    ensures Skip(EncUint(v) + t) == SkipR(true, t)
  {
    DecodeHeadOfHead(MAJOR_UINT, v, t);
  }

  lemma {:induction false} IntRoundTrip(v: int, t: bytes)
    requires -TWO_TO_THE_63 <= v < TWO_TO_THE_63
    ensures DecInt64(EncInt(v) + t) == Ok(v, t)
    ensures Skip(EncInt(v) + t) == SkipR(true, t)
  {
    DecodeHeadOfHead(if v >= 0 then MAJOR_UINT else MAJOR_NINT, if v >= 0 then v else -(v + 1), t);
  }

  lemma {:induction false} StrRoundTrip(x: bytes, t: bytes)
    requires |x| < TWO_TO_THE_32
    ensures DecStr(EncStr(x) + t) == Ok(x, t)
    ensures Skip(EncStr(x) + t) == SkipR(true, t)
  {
    assert |x| % TWO_TO_THE_32 == |x| && x[..|x|] == x;
    var h := Head(MAJOR_TSTR, |x|);
    assert EncStr(x) + t == h + (x + t);
    DecodeHeadOfHead(MAJOR_TSTR, |x|, x + t);
    assert (x + t)[..|x|] == x && (x + t)[|x|..] == t;
  }

  lemma {:induction false} ArrayHeaderRoundTrip(n: u32, t: bytes)
    ensures DecArrayHeader(EncArrayHeader(n) + t) == Ok(n, t)
    ensures Skip(EncArrayHeader(n) + t) == SkipMany(t, n)
  {
    assert n % TWO_TO_THE_32 == n;
    DecodeHeadOfHead(MAJOR_ARRAY, n, t);
  }

  lemma {:induction false} MapHeaderRoundTrip(n: u32, t: bytes)
    ensures DecMapHeader(EncMapHeader(n) + t) == Ok(n, t)
    ensures Skip(EncMapHeader(n) + t) == SkipMany(t, 2 * n)
  {
    assert n % TWO_TO_THE_32 == n;
    DecodeHeadOfHead(MAJOR_MAP, n, t);
  }

  lemma {:induction false} DoubleRoundTrip(fp: FloatOps, bits: u64, t: bytes)
    ensures DecDouble(fp, EncDouble(bits) + t) == Ok(bits, t)
    ensures Skip(EncDouble(bits) + t) == SkipR(true, t)
  {
    var s := EncDouble(bits) + t;
    assert s[0] == FLOAT64 && s[1..9] == BE(bits, 8) && s[9..] == t;
    Pow256Values();
    FromBEOfBE(bits, 8);
  }

  /** A float is read through a double. */
  lemma {:induction false} FloatRoundTrip(fp: FloatOps, bits: u32, t: bytes)
    ensures DecDouble(fp, EncFloat(bits) + t) == Ok(fp.widen(bits), t)
    ensures Skip(EncFloat(bits) + t) == SkipR(true, t)
  {
    var s := EncFloat(bits) + t;
    assert s[0] == FLOAT32 && s[1..5] == BE(bits, 4) && s[5..] == t;
    Pow256Values();
    FromBEOfBE(bits, 4);
  }

  // ----- Skipping does not look past the item -----

  lemma {:induction false} SkipExtends(s: bytes, t: bytes)
    requires Skip(s).ok
    ensures Skip(s + t) == SkipR(true, Skip(s).rest + t)
    decreases |s|, 0
  {
    DecodeHeadExtends(s, t);
    var d := DecodeHead(s);
    if d.major == MAJOR_BSTR || d.major == MAJOR_TSTR {
      assert (d.rest + t)[d.val..] == d.rest[d.val..] + t;
    } else if d.major == MAJOR_ARRAY {
      SkipManyExtends(d.rest, d.val, t);
    } else if d.major == MAJOR_MAP {
      SkipManyExtends(d.rest, 2 * d.val, t);
    } else if d.major == MAJOR_TAG {
      SkipExtends(d.rest, t);
    }
  }

  /** Whether a complete item is a text string does not depend on what follows it. */
  lemma {:induction false} TextItem(s: bytes, t: bytes)
    requires Skip(s) == SkipR(true, [])
    ensures DecStr(s + t).Ok? <==> DecStr(s).Ok?
    ensures DecStr(s + t).Ok? ==> DecStr(s + t).rest == t
  {
    DecodeHeadExtends(s, t);
    var d := DecodeHead(s);
    if d.major == MAJOR_TSTR { assert (d.rest + t)[d.val..] == d.rest[d.val..] + t; }
  }

  lemma {:induction false} SkipManyExtends(s: bytes, n: nat, t: bytes)
    requires SkipMany(s, n).ok
    ensures SkipMany(s + t, n) == SkipR(true, SkipMany(s, n).rest + t)
    decreases |s|, 1
  {
    if n > 0 {
      SkipExtends(s, t);
      SkipManyExtends(Skip(s).rest, n - 1, t);
    }
  }
}
