/** The promises of the schema codec, for both formats and every schema. */
module SchemaCodec {
  import opened Bytes
  import opened Wire
  import opened Schema
  import opened Packing
  import opened Unpacking
  import opened Encoding
  import opened RoundTrip
  import opened PackCorrect

  // ----- Equality up to fields that are not present -----

  ghost predicate Agree(ty: Type, a: Value, b: Value)
    requires Typed(ty, a) && Typed(ty, b)
    decreases ty, 0
  {
    match ty
    case TStruct(fields) => AgreeSlots(fields, a.slots, b.slots)
    case TOneof(_, variants) =>
      a.tag == b.tag
      && (0 <= a.tag < |variants| ==> AgreeSlots(variants[a.tag].fields, a.val.slots, b.val.slots))
    case _ => a == b
  }

  ghost predicate AgreeElems(ty: Type, a: seq<Value>, b: seq<Value>)
    requires (forall e :: e in a ==> Typed(ty, e)) && (forall e :: e in b ==> Typed(ty, e))
    decreases ty, 1, |a|
  {
    |a| == |b| && (a != [] ==> Agree(ty, a[0], b[0]) && AgreeElems(ty, a[1..], b[1..]))
  }

  ghost predicate AgreeField(f: Field, a: Value, b: Value)
    requires TypedField(f, a) && TypedField(f, b)
    decreases f
  {
    match f.shape
    case Single => Agree(f.ty, a, b)
    case Map => a == b
    case _ => AgreeElems(f.ty, a.elems, b.elems)
  }

  /** The same presence flags, and the same values in the fields that are present. */
  ghost predicate AgreeSlots(fields: seq<Field>, a: seq<Slot>, b: seq<Slot>)
    requires TypedSlots(fields, a) && TypedSlots(fields, b)
    decreases fields
  {
    forall i :: 0 <= i < |fields| ==>
                  && (fields[i].optional || fields[i].nullable ==> a[i].has == b[i].has)
                  && (Present(fields[i], b[i]) ==> AgreeField(fields[i], a[i].val, b[i].val))
  }

  // ----- Freshly initialised destinations -----

  /** No optional field is marked present, at any level that is read in place. */
  predicate Fresh(ty: Type, v: Value)
    requires Typed(ty, v)
    decreases ty
  {
    ty.TStruct? ==> FreshSlots(ty.fields, v.slots)
  }

  predicate FreshField(f: Field, v: Value)
    requires TypedField(f, v)
    decreases f
  {
    match f.shape
    case Single => Fresh(f.ty, v)
    case Fixed(_) => forall e :: e in v.elems ==> Fresh(f.ty, e)
    case _ => true
  }

  predicate FreshSlots(fields: seq<Field>, slots: seq<Slot>)
    requires TypedSlots(fields, slots)
    decreases fields
  {
    forall i :: 0 <= i < |fields| ==>
                  (fields[i].optional ==> !slots[i].has) && FreshField(fields[i], slots[i].val)
  }

  lemma {:induction false} ZeroIsFresh(ty: Type)
    requires WellFormed(ty) && Typed(ty, Zero(ty))
    ensures Fresh(ty, Zero(ty))
    decreases ty
  {
    if ty.TStruct? {
      forall i | 0 <= i < |ty.fields| ensures FreshField(ty.fields[i], ZeroSlots(ty.fields)[i].val) {
        var f := ty.fields[i];
        assert WellFormedField(f);
        ZeroIsTyped(f.ty);
        ZeroIsFresh(f.ty);
      }
    }
  }

  lemma {:induction false} InitIsFresh(fields: seq<Field>)
    requires WellFormedFields(fields) && TypedSlots(fields, InitSlots(fields))
    ensures FreshSlots(fields, InitSlots(fields))
    decreases fields
  {
    forall i | 0 <= i < |fields| ensures FreshField(fields[i], InitSlots(fields)[i].val) {
      var f := fields[i];
      assert WellFormedField(f) && TypedField(f, InitSlots(fields)[i].val);
      if f.shape.Single? && f.ty.TStruct? {
        assert WellFormed(f.ty);
        InitSlotsTyped(f.ty.fields);
        InitIsFresh(f.ty.fields);
      } else {
        ZeroIsTyped(f.ty);
        ZeroIsFresh(f.ty);
      }
    }
  }

  lemma {:induction false} MergeAgrees(ty: Type, cur: Value, v: Value)
    requires WellFormed(ty) && Typed(ty, cur) && Typed(ty, v) && Fresh(ty, cur)
    ensures Agree(ty, MergeVal(ty, cur, v), v)
    decreases ty, 0, 0
  {
    if ty.TStruct? {
      MergeSlotsAgree(ty.fields, cur.slots, v.slots);
    } else if ty.TOneof? && 0 <= v.tag < |ty.variants| {
      var fields := ty.variants[v.tag].fields;
      InitSlotsTyped(fields);
      InitIsFresh(fields);
      MergeSlotsAgree(fields, InitSlots(fields), v.val.slots);
    }
  }

  lemma {:induction false} MergeElemsAgree(ty: Type, curs: seq<Value>, elems: seq<Value>)
    requires WellFormed(ty) && |curs| == |elems|
    requires (forall e :: e in curs ==> Typed(ty, e) && Fresh(ty, e)) && (forall e :: e in elems ==> Typed(ty, e))
    ensures AgreeElems(ty, MergeElems(ty, curs, elems), elems)
    decreases ty, 1, |elems|
  {
    hide Agree, MergeVal, Fresh, Typed, WellFormed;
    if elems != [] {
      MergeAgrees(ty, curs[0], elems[0]);
      MergeElemsAgree(ty, curs[1..], elems[1..]);
      var r := MergeElems(ty, curs, elems);
      assert r[1..] == MergeElems(ty, curs[1..], elems[1..]);
    }
  }

  lemma {:induction false} MergeFieldAgrees(f: Field, cur: Value, v: Value)
    requires WellFormedField(f) && TypedField(f, cur) && TypedField(f, v) && FreshField(f, cur)
    ensures AgreeField(f, MergeField(f, cur, v), v)
    decreases f, 1, 0
  {
    match f.shape
    case Single => MergeAgrees(f.ty, cur, v);
    case Map =>
    case Fixed(_) => MergeElemsAgree(f.ty, cur.elems, v.elems);
    case Dynamic =>
      ZeroIsTyped(f.ty);
      ZeroIsFresh(f.ty);
      MergeElemsAgree(f.ty, Repeat(|v.elems|, Zero(f.ty)), v.elems);
  }

  lemma {:induction false} MergeSlotsAgree(fields: seq<Field>, cur: seq<Slot>, src: seq<Slot>)
    requires WellFormedFields(fields) && TypedSlots(fields, cur) && TypedSlots(fields, src) && FreshSlots(fields, cur)
    ensures AgreeSlots(fields, MergeSlots(fields, cur, src), src)
    decreases fields, 2, 0
  {
    hide MergeField, AgreeField, TypedField, FreshField, WellFormedField;
    var r := MergeSlots(fields, cur, src);
    forall i | 0 <= i < |fields|
      ensures fields[i].optional || fields[i].nullable ==> r[i].has == src[i].has
      ensures Present(fields[i], src[i]) ==>
                TypedField(fields[i], r[i].val) && TypedField(fields[i], src[i].val)
                && AgreeField(fields[i], r[i].val, src[i].val)
    {
      assert WellFormedField(fields[i]) && TypedField(fields[i], cur[i].val) && TypedField(fields[i], src[i].val);
      MergeFieldAgrees(fields[i], cur[i].val, src[i].val);
    }
  }

  // ----- Main results -----

  /**
   The emitted unpack, run on the emitted pack's bytes followed by anything, gives back the object
   and consumes exactly those bytes, whatever the destination held in its other fields.
   */
  lemma {:induction false} PackThenUnpack(c: Codec, fields: seq<Field>, obj: seq<Slot>, t: bytes, dest: seq<Slot>)
    requires WellFormedFields(fields) && TypedSlots(fields, obj) && InRangeSlots(c, fields, obj)
    requires TypedSlots(fields, dest)
    ensures var s := PackSlots(c, fields, obj) + t;
            var r := UnpackSlots(c, fields, s, dest);
            && r == Some(MergeSlots(fields, dest, obj))
            && (FreshSlots(fields, dest) ==> AgreeSlots(fields, r.value, obj))
            && Skip(c.fmt, s) == SkipR(true, t)
  {
    hide UnpackSlots, MergeSlots, PackSlots, DocBytes, Wire.Skip;
    PackedLayout(c, fields, obj);
    UnpackDoc(c, fields, obj, InOrder(c, fields, obj), t, dest);
    if FreshSlots(fields, dest) {
      MergeSlotsAgree(fields, dest, obj);
    }
  }

  /** A nested value, array element or map value: the outer cursor lands right behind its packed bytes. */
  lemma {:induction false} PackThenUnpackVal(c: Codec, ty: Type, v: Value, t: bytes, cur: Value)
    requires WellFormed(ty) && Typed(ty, v) && Typed(ty, cur) && InRange(c, ty, v)
    ensures UnpackVal(c, ty, PackVal(c, ty, v) + t, cur) == Ok(MergeVal(ty, cur, v), t)
    ensures Fresh(ty, cur) ==> Agree(ty, MergeVal(ty, cur, v), v)
  {
    hide UnpackVal, MergeVal, PackVal;
    PackEncodes(c, ty, v);
    UnpackEncoded(c, ty, v, PackVal(c, ty, v), t, cur);
    if Fresh(ty, cur) {
      MergeAgrees(ty, cur, v);
    }
  }

  /** Entries in any order, nested ones too, and complete items under unknown keys make no difference. */
  lemma {:induction false} OrderAndExtensionsIgnored(c: Codec, fields: seq<Field>, obj: seq<Slot>, d: seq<Piece>,
                                                     t: bytes, t': bytes, dest: seq<Slot>)
    requires WellFormedFields(fields) && TypedSlots(fields, obj) && InRangeSlots(c, fields, obj)
    requires TypedSlots(fields, dest) && Layout(c, fields, obj, d)
    ensures UnpackSlots(c, fields, DocBytes(c, fields, d) + t, dest)
            == UnpackSlots(c, fields, PackSlots(c, fields, obj) + t', dest)
  {
    hide UnpackSlots, MergeSlots, PackSlots, DocBytes, Wire.Skip;
    UnpackDoc(c, fields, obj, d, t, dest);
    PackThenUnpack(c, fields, obj, t', dest);
  }

  /** An array packed on its own comes back with as many objects, equal one by one. */
  lemma {:induction false} PackArrayThenUnpack(c: Codec, ty: Type, objs: seq<Value>, t: bytes)
    requires (ty.TStruct? || ty.TOneof?) && WellFormed(ty) && |objs| < TWO_TO_THE_31
    requires forall e :: e in objs ==> Typed(ty, e) && InRange(c, ty, e)
    ensures var r := UnpackArray(c, ty, PackArray(c, ty, objs) + t);
            && r.Some? && |r.value| == |objs| && (forall e :: e in r.value ==> Typed(ty, e))
            && AgreeElems(ty, r.value, objs)
  {
    hide Typed, WellFormed, InRange, Agree, AgreeElems, MergeElems, PackElems, UnpackElems, EncodesElems, Fresh;
    hide Wire.EncArrayHeader, Wire.DecArrayHeader, InitSlots, Zero;
    InitIsTyped(ty);
    InitValueIsFresh(ty);
    var x := PackElems(c, ty, objs);
    assert PackArray(c, ty, objs) + t == EncArrayHeader(c.fmt, |objs|) + (x + t);
    ArrayHeaderLaw(c.fmt, |objs|, x + t);
    PackEncodesElems(c, ty, objs);
    UnpackEncodedElems(c, ty, objs, x, t, Repeat(|objs|, Init(ty)));
    MergeElemsAgree(ty, Repeat(|objs|, Init(ty)), objs);
  }

  lemma {:induction false} InitValueIsFresh(ty: Type)
    requires WellFormed(ty) && Typed(ty, Init(ty))
    ensures Fresh(ty, Init(ty))
  {
    if ty.TStruct? {
      InitSlotsTyped(ty.fields);
      InitIsFresh(ty.fields);
    }
  }

  /** A struct without fields reads unknown entries if and only if the bodies it meets read as keys. */
  lemma {:induction false} ExtensionsOfEmptyStructIff(c: Codec, d: seq<Piece>, t: bytes)
    requires |d| < TWO_TO_THE_32 && forall p :: p in d ==> p.Unknown? && |p.key| < TWO_TO_THE_32 && Item(c.fmt, p.body)
    ensures UnpackSlots(c, [], DocBytes(c, [], d) + t, []).Some? <==> BodiesReadAsKeys(c, d)
    ensures BodiesReadAsKeys(c, d) ==> UnpackSlots(c, [], DocBytes(c, [], d) + t, []) == Some([])
  {
    hide Wire.EncMapHeader, Wire.DecMapHeader, Wire.DecStr, Wire.EncStr, Wire.Item, UnpackEntries, PiecesBytes;
    var x := PiecesBytes(c, [], d) + t;
    assert DocBytes(c, [], d) + t == EncMapHeader(c.fmt, |d|) + x;
    MapHeaderLaw(c.fmt, |d|, x);
    UnpackNoFields(c, d, t, |d|);
  }

  /** A oneof round-trips if and only if its tag names a variant. */
  lemma {:induction false} OneofRoundTripsIffTagKnown(c: Codec, tagKey: bytes, variants: seq<Variant>, v: Value, t: bytes, cur: Value)
    requires var ty := TOneof(tagKey, variants); WellFormed(ty) && Typed(ty, v) && Typed(ty, cur)
    requires 0 <= v.tag < |variants| ==> InRangeSlots(c, variants[v.tag].fields, v.val.slots)
    ensures var ty := TOneof(tagKey, variants);
            var r := UnpackVal(c, ty, PackVal(c, ty, v) + t, cur);
            && (r.Ok? <==> 0 <= v.tag < |variants|)
            && (r.Ok? ==> Agree(ty, r.val, v) && r.rest == t)
  {
    var ty := TOneof(tagKey, variants);
    if 0 <= v.tag < |variants| {
      hide UnpackVal, PackVal, MergeVal;
      PackThenUnpackVal(c, ty, v, t, cur);
    } else {
      UnknownTagIsRejected(c, tagKey, variants, v, t);
    }
  }

  lemma {:induction false} UnknownTagIsRejected(c: Codec, tagKey: bytes, variants: seq<Variant>, v: Value, t: bytes)
    requires WellFormed(TOneof(tagKey, variants)) && Typed(TOneof(tagKey, variants), v)
    requires !(0 <= v.tag < |variants|)
    ensures UnpackOneof(c, tagKey, variants, PackVal(c, TOneof(tagKey, variants), v) + t) == None
  {
    hide Wire.EncMapHeader, Wire.EncStr, Wire.EncInt, Wire.DecMapHeader, Wire.DecStr, Wire.Skip, Wire.AtNil;
    hide UnpackSlots, PackSlots;
    var s := EncStr(c.fmt, tagKey) + (EncInt(c.fmt, v.tag) + t);
    assert 1 % TWO_TO_THE_32 == 1;
    assert PackVal(c, TOneof(tagKey, variants), v) + t == EncMapHeader(c.fmt, 1) + s;
    MapHeaderLaw(c.fmt, 1, s);
    StrLaw(c.fmt, tagKey, EncInt(c.fmt, v.tag) + t);
    IntIsNoStr(c.fmt, v.tag, t);
  }
}
