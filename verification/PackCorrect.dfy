/**
 What the emitted pack functions write is an encoding of the object; with `RoundTrip` this gives
 the round trip through both formats, for every schema and every object in range.
 */
module PackCorrect {
  import opened Bytes
  import opened Wire
  import opened Schema
  import opened Packing
  import opened Encoding
  import opened RoundTrip

  /** Present strings, arrays and maps have C sizes, tags name a variant, floats survive a double. */
  predicate InRange(c: Codec, ty: Type, v: Value)
    requires Typed(ty, v)
    decreases ty, 0
  {
    match ty
    case TFloat => c.fp.narrow(c.fp.widen(v.f)) == v.f
    case TStr => |v.s| < TWO_TO_THE_31
    case TStruct(fields) => InRangeSlots(c, fields, v.slots)
    case TOneof(_, variants) => 0 <= v.tag < |variants| && InRangeSlots(c, variants[v.tag].fields, v.val.slots)
    case _ => true
  }

  predicate InRangeField(c: Codec, f: Field, v: Value)
    requires TypedField(f, v)
    decreases f
  {
    match f.shape
    case Single => InRange(c, f.ty, v)
    case Map =>
      |v.entries| < TWO_TO_THE_31
      && forall e :: e in v.entries ==> |e.0| < TWO_TO_THE_31 && InRange(c, f.ty, e.1)
    case _ => |v.elems| < TWO_TO_THE_31 && forall e :: e in v.elems ==> InRange(c, f.ty, e)
  }

  predicate InRangeSlots(c: Codec, fields: seq<Field>, slots: seq<Slot>)
    requires TypedSlots(fields, slots)
    decreases fields
  {
    forall i :: 0 <= i < |fields| && Present(fields[i], slots[i]) ==> InRangeField(c, fields[i], slots[i].val)
  }

  /** Optional and nullable fields are present when their flag is set, all others always. */
  predicate Present(f: Field, slot: Slot) {
    (f.optional || f.nullable) ==> slot.has
  }

  lemma {:induction false} PackEncodes(c: Codec, ty: Type, v: Value)
    requires WellFormed(ty) && Typed(ty, v) && InRange(c, ty, v)
    ensures EncodesVal(c, ty, v, PackVal(c, ty, v))
    decreases ty, 0, 0
  {
    hide Wire.EncUint, Wire.EncInt, Wire.EncBool, Wire.EncFloat, Wire.EncDouble, Wire.EncStr;
    hide Layout, DocBytes, PackSlots, Splice, Tagged;
    if ty.TStruct? {
      PackedLayout(c, ty.fields, v.slots);
    } else if ty.TOneof? {
      PackedOneof(c, ty.tagKey, ty.variants, v);
    }
  }

  lemma {:induction false} PackEncodesElems(c: Codec, ty: Type, elems: seq<Value>)
    requires WellFormed(ty) && forall e :: e in elems ==> Typed(ty, e) && InRange(c, ty, e)
    ensures EncodesElems(c, ty, elems, PackElems(c, ty, elems))
    decreases ty, 1, |elems|
  {
    hide EncodesVal, PackVal, Typed, InRange, WellFormed;
    if elems != [] {
      PackEncodes(c, ty, elems[0]);
      PackEncodesElems(c, ty, elems[1..]);
      assert PackElems(c, ty, elems) == PackVal(c, ty, elems[0]) + PackElems(c, ty, elems[1..]);
    }
  }

  lemma {:induction false} PackEncodesMap(c: Codec, ty: Type, entries: seq<(bytes, Value)>)
    requires WellFormed(ty)
    requires forall e :: e in entries ==> Typed(ty, e.1) && |e.0| < TWO_TO_THE_31 && InRange(c, ty, e.1)
    ensures EncodesMapEntries(c, ty, entries, PackMapEntries(c, ty, entries))
    decreases ty, 1, |entries|
  {
    hide EncodesVal, PackVal, Typed, InRange, WellFormed, Wire.EncStr;
    if entries != [] {
      assert entries[0] in entries;
      PackEncodes(c, ty, entries[0].1);
      PackEncodesMap(c, ty, entries[1..]);
      assert PackMapEntries(c, ty, entries)
             == EncStr(c.fmt, entries[0].0) + PackVal(c, ty, entries[0].1) + PackMapEntries(c, ty, entries[1..]);
    }
  }

  lemma {:induction false} PackEncodesSlot(c: Codec, f: Field, slot: Slot)
    requires WellFormedField(f) && TypedField(f, slot.val) && OnWire(f, slot)
    requires Present(f, slot) ==> InRangeField(c, f, slot.val)
    ensures EncodesSlot(c, f, slot, PackSlot(c, f, slot))
    decreases f, 2, 0
  {
    hide EncodesVal, PackVal, Typed, InRange, WellFormed, EncodesElems, PackElems, EncodesMapEntries, PackMapEntries;
    hide Wire.EncArrayHeader, Wire.EncMapHeader, Wire.Nil;
    if !(f.nullable && !slot.has) {
      match f.shape
      case Single => PackEncodes(c, f.ty, slot.val);
      case Map => PackEncodesMap(c, f.ty, slot.val.entries);
      case Fixed(_) => PackEncodesElems(c, f.ty, slot.val.elems);
      case Dynamic => PackEncodesElems(c, f.ty, slot.val.elems);
    }
  }

  /** The packed value of every field. */
  function Bodies(c: Codec, fields: seq<Field>, slots: seq<Slot>): (r: seq<bytes>)
    requires TypedSlots(fields, slots)
    ensures |r| == |fields|
    ensures forall i :: 0 <= i < |r| ==> TypedField(fields[i], slots[i].val) && r[i] == PackSlot(c, fields[i], slots[i])
  {
    seq(|fields|, i requires 0 <= i < |fields| =>
      (assert TypedField(fields[i], slots[i].val); PackSlot(c, fields[i], slots[i])))
  }

  /** The pieces that go on the wire in the order of the fields, from field `k` on. */
  function Pick(fields: seq<Field>, slots: seq<Slot>, bodies: seq<bytes>, k: nat): seq<Piece>
    requires |slots| == |fields| == |bodies| && k <= |fields|
    decreases |fields| - k
  {
    if k == |fields| then []
    else if OnWire(fields[k], slots[k]) then [Known(k, bodies[k])] + Pick(fields, slots, bodies, k + 1)
    else Pick(fields, slots, bodies, k + 1)
  }

  function InOrder(c: Codec, fields: seq<Field>, slots: seq<Slot>): seq<Piece>
    requires TypedSlots(fields, slots)
  {
    Pick(fields, slots, Bodies(c, fields, slots), 0)
  }

  /** The pieces for exactly the on-wire fields from `k` on. */
  ghost predicate Covers(fields: seq<Field>, slots: seq<Slot>, bodies: seq<bytes>, k: nat, d: seq<Piece>)
    requires |slots| == |fields| == |bodies|
  {
    && (forall p :: p in d ==> p.Known? && k <= p.i < |fields| && OnWire(fields[p.i], slots[p.i]) && p.body == bodies[p.i])
    && (forall j, l :: 0 <= j < l < |d| ==> d[j] in d && d[l] in d && d[j].i < d[l].i)
    && (forall i :: k <= i < |fields| && OnWire(fields[i], slots[i]) ==> Pending(d, i))
  }

  lemma {:induction false} CoversOneMore(fields: seq<Field>, slots: seq<Slot>, bodies: seq<bytes>, k: nat, rest: seq<Piece>)
    requires |slots| == |fields| == |bodies| && k < |fields| && OnWire(fields[k], slots[k])
    requires Covers(fields, slots, bodies, k + 1, rest)
    ensures Covers(fields, slots, bodies, k, [Known(k, bodies[k])] + rest)
  {
    hide OnWire;
    var d := [Known(k, bodies[k])] + rest;
    assert d[1..] == rest;
    PendingAfter(d);
    forall j, l | 0 <= j < l < |d| ensures d[j] in d && d[l] in d && d[j].i < d[l].i {
      assert d[l] == rest[l - 1] && d[l] in rest;
      assert j > 0 ==> d[j] == rest[j - 1];
    }
  }

  lemma {:induction false} PickCovers(fields: seq<Field>, slots: seq<Slot>, bodies: seq<bytes>, k: nat)
    requires |slots| == |fields| == |bodies| && k <= |fields|
    ensures Covers(fields, slots, bodies, k, Pick(fields, slots, bodies, k))
    decreases |fields| - k
  {
    if k < |fields| {
      PickCovers(fields, slots, bodies, k + 1);
      if OnWire(fields[k], slots[k]) {
        CoversOneMore(fields, slots, bodies, k, Pick(fields, slots, bodies, k + 1));
      }
    }
  }

  lemma {:induction false} InOrderBytes(c: Codec, fields: seq<Field>, slots: seq<Slot>, k: nat)
    requires TypedSlots(fields, slots) && k <= |fields|
    ensures var d := Pick(fields, slots, Bodies(c, fields, slots), k);
            && PiecesBytes(c, fields, d) == PackEntries(c, fields[k..], slots[k..])
            && |d| == CountOnWire(fields[k..], slots[k..])
    decreases |fields| - k
  {
    hide PackSlot, TypedField, Wire.EncStr;
    if k < |fields| {
      InOrderBytes(c, fields, slots, k + 1);
      assert fields[k..][1..] == fields[k + 1..] && slots[k..][1..] == slots[k + 1..];
      var d := Pick(fields, slots, Bodies(c, fields, slots), k);
      if OnWire(fields[k], slots[k]) {
        assert d[1..] == Pick(fields, slots, Bodies(c, fields, slots), k + 1);
      }
    }
  }

  lemma {:induction false} PackedLayout(c: Codec, fields: seq<Field>, slots: seq<Slot>)
    requires WellFormedFields(fields) && TypedSlots(fields, slots) && InRangeSlots(c, fields, slots)
    ensures var d := InOrder(c, fields, slots);
            && Layout(c, fields, slots, d) && PackSlots(c, fields, slots) == DocBytes(c, fields, d)
            && |d| <= |fields| && forall j :: 0 <= j < |d| ==> d[j].Known?
    decreases fields, 4, 0
  {
    hide EncodesSlot, PackSlot, TypedField, Wire.EncMapHeader, WellFormedField;
    var d := InOrder(c, fields, slots);
    PickCovers(fields, slots, Bodies(c, fields, slots), 0);
    InOrderBytes(c, fields, slots, 0);
    assert fields[0..] == fields && slots[0..] == slots;
    forall j | 0 <= j < |d| ensures PieceOk(c, fields, slots, d[j]) {
      assert d[j] in d;
      var i := d[j].i;
      assert WellFormedField(fields[i]) && TypedField(fields[i], slots[i].val);
      PackEncodesSlot(c, fields[i], slots[i]);
    }
  }

  /** The splice puts the tag's entry before the entries of the body and counts it. */
  lemma {:induction false} SpliceAddsEntry(f: Format, tagKey: bytes, tag: bytes, n: nat, entries: bytes)
    requires n + 1 < TWO_TO_THE_32
    ensures Splice(f, tagKey, tag, EncMapHeader(f, n) + entries)
            == EncMapHeader(f, n + 1) + (EncStr(f, tagKey) + tag + entries)
  {
    hide Wire.EncMapHeader, Wire.EncStr, Wire.DecMapHeader, Wire.Skip, Wire.AtNil;
    MapHeaderLaw(f, n, entries);
    assert (1 + n) % TWO_TO_THE_32 == n + 1;
    SameBytes(EncMapHeader(f, n + 1), EncStr(f, tagKey), tag, entries);
  }

  lemma {:induction false} SameBytes(a: bytes, b: bytes, x: bytes, y: bytes)
    ensures a + b + x + y == a + (b + x + y)
  {
  }

  /** Pieces with an entry for the tag in front are still a layout. */
  lemma {:induction false} TagInFront(c: Codec, fields: seq<Field>, slots: seq<Slot>, d: seq<Piece>, tagKey: bytes, tag: bytes)
    requires WellFormedFields(fields) && TypedSlots(fields, slots) && Layout(c, fields, slots, d)
    requires |d| <= |fields| && |tagKey| < TWO_TO_THE_32 && !HasKey(fields, tagKey) && Item(c.fmt, tag)
    requires forall j :: 0 <= j < |d| ==> d[j].Known?
    ensures var d' := [Unknown(tagKey, tag)] + d; Layout(c, fields, slots, d') && Tagged(d', tagKey, tag)
  {
    hide EncodesSlot, Wire.Item, WellFormedField, TypedField;
    var d' := [Unknown(tagKey, tag)] + d;
    assert d'[0] == Unknown(tagKey, tag) && d'[1..] == d;
    forall j | 0 <= j < |d'| ensures PieceOk(c, fields, slots, d'[j]) {
      if j > 0 { assert d'[j] == d[j - 1]; }
    }
    PendingAfter(d');
  }

  /** A packed oneof is one map: the tag's entry, then exactly the entries of the variant. */
  lemma {:induction false} PackedOneof(c: Codec, tagKey: bytes, variants: seq<Variant>, v: Value)
    requires WellFormed(TOneof(tagKey, variants)) && Typed(TOneof(tagKey, variants), v)
    requires InRange(c, TOneof(tagKey, variants), v)
    ensures var fields := variants[v.tag].fields;
            var tag := EncStr(c.fmt, variants[v.tag].name);
            var d := [Unknown(tagKey, tag)] + InOrder(c, fields, v.val.slots);
            && Layout(c, fields, v.val.slots, d) && Tagged(d, tagKey, tag)
            && PackVal(c, TOneof(tagKey, variants), v) == DocBytes(c, fields, d)
    decreases variants, 5, 0
  {
    hide Layout, Tagged, TypedSlots, WellFormedFields, PackSlots, Splice, InRangeSlots, InOrder, HasKey;
    hide Wire.EncMapHeader, Wire.EncStr, Wire.Skip, Wire.AtNil;
    var fields, slots := variants[v.tag].fields, v.val.slots;
    var name := variants[v.tag].name;
    var tag := EncStr(c.fmt, name);
    var known := InOrder(c, fields, slots);
    PackedLayout(c, fields, slots);
    assert Names(variants)[v.tag] in Names(variants);
    StrLaw(c.fmt, name, []);
    assert tag + [] == tag;
    TagInFront(c, fields, slots, known, tagKey, tag);
    FewFields(fields);
    SpliceAddsEntry(c.fmt, tagKey, tag, |known|, PiecesBytes(c, fields, known));
    assert ([Unknown(tagKey, tag)] + known)[1..] == known;
  }

  lemma {:induction false} FewFields(fields: seq<Field>)
    requires WellFormedFields(fields)
    ensures |fields| + 1 < TWO_TO_THE_32
  {
  }
}
