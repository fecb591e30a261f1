/**
 The values of MessagePack, as trees, in every width the format allows and without the binary and
 extension families, which the runtime does not know. The skipper accepts exactly these.
 */
module MsgPackGrammar {
  import opened Bytes
  import opened MsgPack

  datatype Family = Str | Array | Map

  /** The length of a string, or the count of an array or map, in a field of `width` octets or in the marker itself. */
  datatype Lead = Lead(family: Family, width: nat, count: nat)

  datatype Node =
    | Leaf(marker: byte, payload: bytes)     // nil, booleans, integers, floats
    | Text(lead: Lead, payload: bytes)
    | Group(lead: Lead, items: seq<Node>)    // a map's keys and values alternate

  /** How many octets follow a leaf's marker, or -1. */
  function LeafWidth(b: byte): int {
    if b < 0x80 || b >= 0xe0 then 0
    else if b == 0xc0 || b == 0xc2 || b == 0xc3 then 0
    else if b == 0xcc || b == 0xd0 then 1
    else if b == 0xcd || b == 0xd1 then 2
    else if b == 0xce || b == 0xd2 || b == 0xca then 4
    else if b == 0xcf || b == 0xd3 || b == 0xcb then 8
    else -1
  }

  predicate WellFormedLead(l: Lead) {
    if l.width == 0 then l.count < (if l.family == Str then 32 else 16)
    else l.width in (if l.family == Str then {1, 2, 4} else {2, 4}) && l.count < Pow256(l.width)
  }

  function Marker(l: Lead): byte
    requires WellFormedLead(l)
  {
    match l.family
    case Str => if l.width == 0 then 0xa0 + l.count else if l.width == 1 then 0xd9 else if l.width == 2 then 0xda else 0xdb
    case Array => if l.width == 0 then 0x90 + l.count else if l.width == 2 then 0xdc else 0xdd
    case Map => if l.width == 0 then 0x80 + l.count else if l.width == 2 then 0xde else 0xdf
  }

  function LeadBytes(l: Lead): bytes
    requires WellFormedLead(l)
  {
    [Marker(l)] + if l.width == 0 then [] else BE(l.count, l.width)
  }

  predicate WellFormed(n: Node) {
    match n
    case Leaf(marker, payload) => |payload| == LeafWidth(marker)
    case Text(lead, payload) => WellFormedLead(lead) && lead.family == Str && |payload| == lead.count
    case Group(lead, items) =>
      && WellFormedLead(lead) && lead.family != Str
      && |items| == (if lead.family == Map then 2 * lead.count else lead.count)
      && forall x :: x in items ==> WellFormed(x)
  }

  function Encode(n: Node): bytes
    requires WellFormed(n)
    decreases n, 0
  {
    match n
    case Leaf(marker, payload) => [marker] + payload
    case Text(lead, payload) => LeadBytes(lead) + payload
    case Group(lead, items) => LeadBytes(lead) + EncodeAll(items)
  }

  function EncodeAll(items: seq<Node>): bytes
    requires forall x :: x in items ==> WellFormed(x)
    decreases items, 1
  {
    if items == [] then [] else Encode(items[0]) + EncodeAll(items[1..])
  }

  /** What is left to skip behind a lead. */
  function SkipBehind(l: Lead, u: bytes): SkipR {
    match l.family
    case Str => SkipBytes(u, l.count)
    case Array => SkipMany(u, l.count)
    case Map => SkipMany(u, 2 * l.count)
  }

  lemma {:induction false} SkipOfLead(l: Lead, u: bytes)
    requires WellFormedLead(l)
    ensures Skip(LeadBytes(l) + u) == SkipBehind(l, u)
  {
    hide SkipMany, SkipBytes, PayloadWidth, BE, FromBE, Pow256;
    Pow256Values();
    var s := LeadBytes(l) + u;
    assert s[0] == Marker(l);
    if l.width == 0 {
      assert s[1..] == u;
    } else {
      assert s[1..] == BE(l.count, l.width) + u;
      ReadBEOfBE(l.count, l.width, u);
    }
  }

  lemma {:induction false} SkipOfLeaf(b: byte, u: bytes)
    requires LeafWidth(b) >= 0
    ensures Skip([b] + u) == SkipBytes(u, LeafWidth(b))
  {
    hide SkipMany;
    assert ([b] + u)[1..] == u;
  }

  lemma {:induction false} LeadOfSkipped(s: bytes) returns (l: Lead, u: bytes)
    requires Skip(s).ok && LeafWidth(s[0]) < 0
    ensures WellFormedLead(l) && s == LeadBytes(l) + u
  {
    hide SkipMany, SkipBytes, BE, FromBE, Pow256;
    Pow256Values();
    var b := s[0];
    if IsFixStr(b) {
      l, u := Lead(Str, 0, b % 32), s[1..];
    } else if IsFixArray(b) {
      l, u := Lead(Array, 0, b % 16), s[1..];
    } else if IsFixMap(b) {
      l, u := Lead(Map, 0, b % 16), s[1..];
    } else {
      var family := if b == STR8 || b == STR16 || b == STR32 then Str else if b == ARRAY16 || b == ARRAY32 then Array else Map;
      var w := if b == STR8 then 1 else if b == STR16 || b == ARRAY16 || b == MAP16 then 2 else 4;
      LongLead(s, w);
      l, u := Lead(family, w, ReadBE(s[1..], w).val), ReadBE(s[1..], w).rest;
    }
  }

  lemma {:induction false} LongLead(s: bytes, w: nat)
    requires s != [] && ReadBE(s[1..], w).Ok?
    ensures ReadBE(s[1..], w).val < Pow256(w) && s == [s[0]] + BE(ReadBE(s[1..], w).val, w) + ReadBE(s[1..], w).rest
  {
    FromBEBound(s[1..][..w]);
    BEOfFromBE(s[1..][..w]);
    assert s == [s[0]] + s[1..][..w] + s[1..][w..];
  }

  lemma {:induction false} SkipsNode(n: Node, t: bytes)
    requires WellFormed(n)
    ensures Skip(Encode(n) + t) == SkipR(true, t)
    decreases n, 0
  {
    hide Skip, SkipMany, EncodeAll, LeadBytes, WellFormedLead, LeafWidth;
    match n
    case Leaf(marker, payload) =>
      assert Encode(n) + t == [marker] + (payload + t);
      SkipOfLeaf(marker, payload + t);
      assert (payload + t)[|payload|..] == t;
    case Text(lead, payload) =>
      assert Encode(n) + t == LeadBytes(lead) + (payload + t);
      SkipOfLead(lead, payload + t);
      assert (payload + t)[|payload|..] == t;
    case Group(lead, items) =>
      assert Encode(n) + t == LeadBytes(lead) + (EncodeAll(items) + t);
      SkipOfLead(lead, EncodeAll(items) + t);
      SkipsNodes(items, t);
  }

  lemma {:induction false} SkipsNodes(items: seq<Node>, t: bytes)
    requires forall x :: x in items ==> WellFormed(x)
    ensures SkipMany(EncodeAll(items) + t, |items|) == SkipR(true, t)
    decreases items, 0
  {
    hide Encode, Skip;
    if items == [] {
      assert [] + t == t;
    } else {
      assert EncodeAll(items) + t == Encode(items[0]) + (EncodeAll(items[1..]) + t);
      SkipsNode(items[0], EncodeAll(items[1..]) + t);
      SkipsNodes(items[1..], t);
    }
  }

  lemma {:induction false} NodeOfSkipped(s: bytes) returns (n: Node)
    requires Skip(s).ok
    ensures WellFormed(n) && s == Encode(n) + Skip(s).rest
    decreases |s|, 0
  {
    hide Skip, SkipMany, EncodeAll, LeadBytes, WellFormedLead, LeafWidth, Encode;
    if LeafWidth(s[0]) >= 0 {
      var w := LeafWidth(s[0]);
      assert s == [s[0]] + s[1..];
      SkipOfLeaf(s[0], s[1..]);
      n := Leaf(s[0], s[1..][..w]);
      EncodedLeaf(s, w);
    } else {
      var l, u := LeadOfSkipped(s);
      SkipOfLead(l, u);
      if l.family == Str {
        n := Text(l, u[..l.count]);
        EncodedText(l, u);
      } else {
        LeadIsNotEmpty(l);
        var items := NodesOfSkipped(u, if l.family == Map then 2 * l.count else l.count);
        n := Group(l, items);
        EncodedGroup(l, items, SkipBehind(l, u).rest);
      }
    }
  }

  lemma {:induction false} EncodedLeaf(s: bytes, w: nat)
    requires s != [] && w == LeafWidth(s[0]) && w <= |s[1..]|
    ensures Encode(Leaf(s[0], s[1..][..w])) + s[1..][w..] == s
  {
  }

  lemma {:induction false} EncodedText(l: Lead, u: bytes)
    requires WellFormedLead(l) && l.family == Str && l.count <= |u|
    ensures Encode(Text(l, u[..l.count])) + u[l.count..] == LeadBytes(l) + u
  {
    hide LeadBytes;
    assert u == u[..l.count] + u[l.count..];
  }

  lemma {:induction false} EncodedGroup(l: Lead, items: seq<Node>, t: bytes)
    requires WellFormed(Group(l, items))
    ensures Encode(Group(l, items)) + t == LeadBytes(l) + (EncodeAll(items) + t)
  {
    hide LeadBytes, EncodeAll;
  }

  lemma {:induction false} LeadIsNotEmpty(l: Lead)
    requires WellFormedLead(l)
    ensures |LeadBytes(l)| > 0
  {
  }

  lemma {:induction false} NodesOfSkipped(s: bytes, k: nat) returns (items: seq<Node>)
    requires SkipMany(s, k).ok
    ensures |items| == k && forall x :: x in items ==> WellFormed(x)
    ensures s == EncodeAll(items) + SkipMany(s, k).rest
    decreases |s|, 1
  {
    hide Skip, Encode;
    if k == 0 {
      items := [];
    } else {
      var n := NodeOfSkipped(s);
      var more := NodesOfSkipped(Skip(s).rest, k - 1);
      items := [n] + more;
      assert items[1..] == more;
    }
  }

  /** The skipper succeeds and stops at `t` exactly when `s` is one value followed by `t`. */
  lemma {:induction false} SkipIffNode(s: bytes, t: bytes)
    ensures Skip(s) == SkipR(true, t) <==> exists n :: WellFormed(n) && s == Encode(n) + t
  {
    hide Skip, Encode, WellFormed;
    if Skip(s) == SkipR(true, t) {
      var n := NodeOfSkipped(s);
    }
    forall n | WellFormed(n) && s == Encode(n) + t ensures Skip(s) == SkipR(true, t) {
      SkipsNode(n, t);
    }
  }

  /** No value is a proper prefix of another. */
  lemma {:induction false} NoNodeIsAPrefix(a: Node, b: Node)
    requires WellFormed(a) && WellFormed(b) && Encode(a) <= Encode(b)
    ensures Encode(a) == Encode(b)
  {
    hide Skip, Encode, WellFormed;
    var t := Encode(b)[|Encode(a)|..];
    SkipsNode(a, t);
    SkipsNode(b, []);
    assert Encode(b) == Encode(a) + t && Encode(b) + [] == Encode(b);
  }

  // ----- Integers -----

  /** The number a leaf stands for, if it is an integer. */
  function IntMeaning(n: Node): Option<int>
    requires WellFormed(n)
  {
    if !n.Leaf? then None
    else if n.marker < 0x80 then Some(n.marker)
    else if n.marker >= 0xe0 then Some((n.marker as int) - 0x100)
    else if 0xcc <= n.marker <= 0xcf then Some(FromBE(n.payload))
    else if 0xd0 <= n.marker <= 0xd3 then
      var v := FromBE(n.payload);
      Some(if v < Pow256(|n.payload|) / 2 then v else v - Pow256(|n.payload|))
    else None
  }

  function Wrapped(m: int): int {
    if m >= TWO_TO_THE_63 then m - TWO_TO_THE_64 else m
  }

  /** Every integer in every width is read as its number, save that one outside the reader's range wraps. */
  lemma {:induction false} IntegersReadAsMeant(n: Node, t: bytes)
    requires WellFormed(n)
    ensures DecInt64(Encode(n) + t).Ok? <==> IntMeaning(n).Some?
    ensures IntMeaning(n).Some? ==> DecInt64(Encode(n) + t) == Ok(Wrapped(IntMeaning(n).value), t)
    ensures DecUint64(Encode(n) + t).Ok? <==> IntMeaning(n).Some? && n.marker < 0xe0
    ensures IntMeaning(n).Some? && n.marker < 0xe0 ==> DecUint64(Encode(n) + t) == Ok(IntMeaning(n).value % TWO_TO_THE_64, t)
  {
    hide FromBE, Pow256;
    Pow256Values();
    var s := Encode(n) + t;
    if n.Leaf? {
      assert s[0] == n.marker && s[1..] == n.payload + t;
      assert (n.payload + t)[..|n.payload|] == n.payload && (n.payload + t)[|n.payload|..] == t;
      FromBEBound(n.payload);
    } else {
      MarkerIsNoInteger(n.lead);
      assert s[0] == Marker(n.lead);
    }
  }

  lemma {:induction false} MarkerIsNoInteger(l: Lead)
    requires WellFormedLead(l)
    ensures 0x80 <= Marker(l) < 0xc0 || 0xd9 <= Marker(l) < 0xe0
  {
    Pow256Values();
  }

  /** The node an integer is packed as. */
  function PackedInt(v: int): (n: Node)
    requires -TWO_TO_THE_63 <= v < TWO_TO_THE_64
  {
    Leaf(EncInt(v)[0], EncInt(v)[1..])
  }

  /** An integer is packed as a leaf that stands for it, and no leaf that does is shorter. */
  lemma {:induction false} PackedIntIsShortest(v: int, n: Node)
    requires -TWO_TO_THE_63 <= v < TWO_TO_THE_64
    ensures WellFormed(PackedInt(v)) && Encode(PackedInt(v)) == EncInt(v) && IntMeaning(PackedInt(v)) == Some(v)
    ensures WellFormed(n) && IntMeaning(n) == Some(v) ==> |EncInt(v)| <= |Encode(n)|
  {
    PackedIntMeans(v);
    if WellFormed(n) && IntMeaning(n) == Some(v) { WidthOfMeaning(n, v); }
  }

  lemma {:induction false} PackedIntMeans(v: int)
    requires -TWO_TO_THE_63 <= v < TWO_TO_THE_64
    ensures WellFormed(PackedInt(v)) && Encode(PackedInt(v)) == EncInt(v) && IntMeaning(PackedInt(v)) == Some(v)
  {
    hide BE, FromBE, Pow256;
    Pow256Values();
    var w := LeafWidth(EncInt(v)[0]);
    if w > 0 {
      var u := if v >= 0 then v else v + Pow256(w);
      assert EncInt(v)[1..] == BE(u, w) by { if w == 1 { OneOctet(EncInt(v)[0], u); } }
      FromBEOfBE(u, w);
    }
  }

  /** A value takes a leaf wide enough for it. */
  lemma {:induction false} WidthOfMeaning(n: Node, v: int)
    requires -TWO_TO_THE_63 <= v < TWO_TO_THE_64 && WellFormed(n) && IntMeaning(n) == Some(v)
    ensures |EncInt(v)| <= |Encode(n)|
  {
    hide BE, FromBE, Pow256;
    Pow256Values();
    FromBEBound(n.payload);
  }
}
