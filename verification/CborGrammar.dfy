/**
 The data items of CBOR with definite lengths, as trees: section 3 and appendix C of RFC 8949,
 except that appendix C also refuses a two-byte simple value below 32, which the code accepts.
 The skipper accepts exactly these.
 */
module CborGrammar {
  import opened Bytes
  import opened Cbor

  /** A head in any of its widths, shortest or not: `width` octets of argument follow the initial byte. */
  datatype HeadForm = HeadForm(major: nat, width: nat, val: nat)

  datatype DataItem =
    | Plain(h: HeadForm)                         // integers, simple values and floats
    | Text(h: HeadForm, payload: bytes)          // byte and text strings
    | Array(h: HeadForm, items: seq<DataItem>)
    | Map(h: HeadForm, items: seq<DataItem>)     // keys and values alternate
    | Tagged(h: HeadForm, item: DataItem)

  predicate WellFormedHead(h: HeadForm) {
    h.width in {0, 1, 2, 4, 8} && h.val < (if h.width == 0 then 24 else Pow256(h.width))
  }

  predicate WellFormed(it: DataItem) {
    && WellFormedHead(it.h)
    && match it
       case Plain(h) => h.major in {MAJOR_UINT, MAJOR_NINT, MAJOR_SIMPLE}
       case Text(h, payload) => h.major in {MAJOR_BSTR, MAJOR_TSTR} && |payload| == h.val
       case Array(h, items) => h.major == MAJOR_ARRAY && |items| == h.val && forall x :: x in items ==> WellFormed(x)
       case Map(h, items) => h.major == MAJOR_MAP && |items| == 2 * h.val && forall x :: x in items ==> WellFormed(x)
       case Tagged(h, item) => h.major == MAJOR_TAG && WellFormed(item)
  }

  function Info(width: nat): byte {
    if width == 1 then 24 else if width == 2 then 25 else if width == 4 then 26 else 27
  }

  function HeadBytes(h: HeadForm): bytes
    requires WellFormedHead(h) && h.major < 8
  {
    if h.width == 0 then [h.major * 32 + h.val] else [h.major * 32 + Info(h.width)] + BE(h.val, h.width)
  }

  function Encode(it: DataItem): bytes
    requires WellFormed(it)
    decreases it, 1
  {
    HeadBytes(it.h) + Body(it)
  }

  function Body(it: DataItem): bytes
    requires WellFormed(it)
    decreases it, 0
  {
    match it
    case Plain(_) => []
    case Text(_, payload) => payload
    case Array(_, items) => EncodeAll(items)
    case Map(_, items) => EncodeAll(items)
    case Tagged(_, item) => Encode(item)
  }

  function EncodeAll(items: seq<DataItem>): bytes
    requires forall x :: x in items ==> WellFormed(x)
    decreases items, 2
  {
    if items == [] then [] else Encode(items[0]) + EncodeAll(items[1..])
  }

  lemma {:induction false} InitialByte(major: nat, info: nat)
    requires major < 8 && info < 32
    ensures (major * 32 + info) / 32 == major && (major * 32 + info) % 32 == info
  {
  }

  lemma {:induction false} DecodeHeadBytes(h: HeadForm, t: bytes)
    requires WellFormedHead(h) && h.major < 8
    ensures DecodeHead(HeadBytes(h) + t) == HeadOk(h.major, h.val, t)
  {
    hide BE, FromBE, Pow256;
    var s := HeadBytes(h) + t;
    Pow256Values();
    var info := if h.width == 0 then h.val else Info(h.width);
    InitialByte(h.major, info);
    assert s[0] == h.major * 32 + info && ArgWidth(info) == h.width;
    if h.width == 0 {
      assert s[1..] == t;
    } else {
      assert s[1..1 + h.width] == BE(h.val, h.width) && s[1 + h.width..] == t;
      FromBEOfBE(h.val, h.width);
    }
  }

  lemma {:induction false} HeadOfDecoded(s: bytes) returns (h: HeadForm)
    requires DecodeHead(s).HeadOk?
    ensures WellFormedHead(h) && h.major == DecodeHead(s).major && h.val == DecodeHead(s).val
    ensures h.major < 8 && s == HeadBytes(h) + DecodeHead(s).rest
  {
    var w := ArgWidth(s[0] % 32);
    h := HeadForm(s[0] / 32, w, DecodeHead(s).val);
    if w > 0 {
      FromBEBound(s[1..1 + w]);
      BEOfFromBE(s[1..1 + w]);
    }
  }

  lemma {:induction false} SkipsItem(it: DataItem, t: bytes)
    requires WellFormed(it)
    ensures Skip(Encode(it) + t) == SkipR(true, t)
    decreases it, 0
  {
    hide DecodeHead, HeadBytes, SkipMany, EncodeAll, WellFormedHead;
    assert Encode(it) + t == HeadBytes(it.h) + (Body(it) + t);
    DecodeHeadBytes(it.h, Body(it) + t);
    match it
    case Plain(_) => assert Body(it) + t == t;
    case Text(h, payload) => assert (payload + t)[h.val..] == t;
    case Array(_, items) => SkipsItems(items, t);
    case Map(_, items) => SkipsItems(items, t);
    case Tagged(_, item) => SkipsItem(item, t);
  }

  lemma {:induction false} SkipsItems(items: seq<DataItem>, t: bytes)
    requires forall x :: x in items ==> WellFormed(x)
    ensures SkipMany(EncodeAll(items) + t, |items|) == SkipR(true, t)
    decreases items, 0
  {
    hide Encode, Skip;
    if items == [] {
      assert [] + t == t;
    } else {
      assert EncodeAll(items) + t == Encode(items[0]) + (EncodeAll(items[1..]) + t);
      SkipsItem(items[0], EncodeAll(items[1..]) + t);
      SkipsItems(items[1..], t);
    }
  }

  lemma {:induction false} ItemOfSkipped(s: bytes) returns (it: DataItem)
    requires Skip(s).ok
    ensures WellFormed(it) && s == Encode(it) + Skip(s).rest
    decreases |s|, 0
  {
    hide DecodeHead, HeadBytes, SkipMany, WellFormedHead, EncodeAll;
    var h := HeadOfDecoded(s);
    var rest := DecodeHead(s).rest;
    if h.major == MAJOR_BSTR || h.major == MAJOR_TSTR {
      it := Text(h, rest[..h.val]);
    } else if h.major == MAJOR_ARRAY {
      var items := ItemsOfSkipped(rest, h.val);
      it := Array(h, items);
    } else if h.major == MAJOR_MAP {
      var items := ItemsOfSkipped(rest, 2 * h.val);
      it := Map(h, items);
    } else if h.major == MAJOR_TAG {
      var item := ItemOfSkipped(rest);
      it := Tagged(h, item);
    } else {
      it := Plain(h);
    }
    assert s == HeadBytes(h) + (Body(it) + Skip(s).rest);
  }

  lemma {:induction false} ItemsOfSkipped(s: bytes, n: nat) returns (items: seq<DataItem>)
    requires SkipMany(s, n).ok
    ensures |items| == n && forall x :: x in items ==> WellFormed(x)
    ensures s == EncodeAll(items) + SkipMany(s, n).rest
    decreases |s|, 1
  {
    hide Skip, Encode;
    if n == 0 {
      items := [];
    } else {
      var it := ItemOfSkipped(s);
      var more := ItemsOfSkipped(Skip(s).rest, n - 1);
      items := [it] + more;
      assert items[1..] == more;
    }
  }

  /** The skipper succeeds and stops at `t` exactly when `s` is one data item followed by `t`. */
  lemma {:induction false} SkipIffItem(s: bytes, t: bytes)
    ensures Skip(s) == SkipR(true, t) <==> exists it :: WellFormed(it) && s == Encode(it) + t
  {
    if Skip(s) == SkipR(true, t) {
      var it := ItemOfSkipped(s);
    }
    forall it | WellFormed(it) && s == Encode(it) + t ensures Skip(s) == SkipR(true, t) {
      SkipsItem(it, t);
    }
  }

  /** No data item is a proper prefix of another. */
  lemma {:induction false} NoItemIsAPrefix(a: DataItem, b: DataItem)
    requires WellFormed(a) && WellFormed(b) && Encode(a) <= Encode(b)
    ensures Encode(a) == Encode(b)
  {
    var t := Encode(b)[|Encode(a)|..];
    SkipsItem(a, t);
    SkipsItem(b, []);
    assert Encode(b) == Encode(a) + t && Encode(b) + [] == Encode(b);
  }
}
