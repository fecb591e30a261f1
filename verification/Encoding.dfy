/**
 What it means for bytes to encode an object, without saying who wrote them: the entries of a
 struct may come in any order, at every level, with complete items under unknown keys in between.
 Also what reading such bytes into a destination is meant to leave there.
 */
module Encoding {
  import opened Bytes
  import opened Wire
  import opened Schema
  import opened Packing

  /** An entry of a struct's map: field `i` with its encoded value, or one no field asks for. */
  datatype Piece = Known(i: nat, body: bytes) | Unknown(key: bytes, body: bytes)

  function PieceKey(fields: seq<Field>, p: Piece): bytes {
    match p
    case Known(i, _) => if i < |fields| then fields[i].key else []
    case Unknown(key, _) => key
  }

  function PiecesBytes(c: Codec, fields: seq<Field>, d: seq<Piece>): bytes {
    if d == [] then []
    else EncStr(c.fmt, PieceKey(fields, d[0])) + d[0].body + PiecesBytes(c, fields, d[1..])
  }

  function DocBytes(c: Codec, fields: seq<Field>, d: seq<Piece>): bytes {
    EncMapHeader(c.fmt, |d|) + PiecesBytes(c, fields, d)
  }

  ghost predicate EncodesVal(c: Codec, ty: Type, v: Value, b: bytes)
    requires Typed(ty, v)
    decreases ty, 0, 0
  {
    match ty
    case TInt(_, signed, _) => b == if signed then EncInt(c.fmt, v.i) else EncUint(c.fmt, v.i)
    case TBool => b == EncBool(c.fmt, v.b)
    case TFloat => b == EncFloat(c.fmt, v.f) && c.fp.narrow(c.fp.widen(v.f)) == v.f
    case TDouble => b == EncDouble(c.fmt, v.d)
    case TStr => b == EncStr(c.fmt, v.s) && |v.s| < TWO_TO_THE_32
    // Either the name or the number.
    case TEnum(names) => b == EncInt(c.fmt, v.i) || (0 <= v.i < |names| && b == EncStr(c.fmt, names[v.i]))
    case TStruct(fields) =>
      exists d :: Layout(c, fields, v.slots, d) && b == DocBytes(c, fields, d)
    case TOneof(tagKey, variants) =>
      && 0 <= v.tag < |variants|
      && exists d :: Layout(c, variants[v.tag].fields, v.val.slots, d)
                     && Tagged(d, tagKey, EncStr(c.fmt, variants[v.tag].name))
                     && b == DocBytes(c, variants[v.tag].fields, d)
  }

  /** Some entry is the tag, and all entries under the tag's key say the same. */
  ghost predicate Tagged(d: seq<Piece>, tagKey: bytes, tag: bytes) {
    && (exists j :: 0 <= j < |d| && d[j] == Unknown(tagKey, tag))
    && (forall j :: 0 <= j < |d| && d[j].Unknown? && d[j].key == tagKey ==> d[j].body == tag)
  }

  ghost predicate EncodesElems(c: Codec, ty: Type, elems: seq<Value>, b: bytes)
    requires forall e :: e in elems ==> Typed(ty, e)
    decreases ty, 1, |elems|
  {
    if elems == [] then b == []
    else exists x, y :: b == x + y && EncodesVal(c, ty, elems[0], x) && EncodesElems(c, ty, elems[1..], y)
  }

  ghost predicate EncodesMapEntries(c: Codec, ty: Type, entries: seq<(bytes, Value)>, b: bytes)
    requires forall e :: e in entries ==> Typed(ty, e.1)
    decreases ty, 1, |entries|
  {
    if entries == [] then b == []
    else
      && |entries[0].0| < TWO_TO_THE_32
      && exists x, y :: b == EncStr(c.fmt, entries[0].0) + x + y
                        && EncodesVal(c, ty, entries[0].1, x) && EncodesMapEntries(c, ty, entries[1..], y)
  }

  ghost predicate EncodesField(c: Codec, f: Field, v: Value, b: bytes)
    requires TypedField(f, v)
    decreases f, 1, 0
  {
    match f.shape
    case Single => EncodesVal(c, f.ty, v, b)
    case Map =>
      |v.entries| < TWO_TO_THE_32
      && exists x :: b == EncMapHeader(c.fmt, |v.entries|) + x && EncodesMapEntries(c, f.ty, v.entries, x)
    case _ =>
      |v.elems| < TWO_TO_THE_32
      && exists x :: b == EncArrayHeader(c.fmt, |v.elems|) + x && EncodesElems(c, f.ty, v.elems, x)
  }

  ghost predicate EncodesSlot(c: Codec, f: Field, slot: Slot, b: bytes)
    requires TypedField(f, slot.val)
    decreases f, 2, 0
  {
    if f.nullable && !slot.has then b == [Nil(c.fmt)] else EncodesField(c, f, slot.val, b)
  }

  ghost predicate PieceOk(c: Codec, fields: seq<Field>, slots: seq<Slot>, p: Piece)
    requires TypedSlots(fields, slots)
    decreases fields, 3, 0
  {
    match p
    case Known(i, body) =>
      i < |fields| && OnWire(fields[i], slots[i]) && EncodesSlot(c, fields[i], slots[i], body)
    case Unknown(key, body) =>
      |key| < TWO_TO_THE_32 && !HasKey(fields, key) && Item(c.fmt, body)
  }

  /** Every piece is in order and no field comes twice. */
  ghost predicate PiecesOk(c: Codec, fields: seq<Field>, slots: seq<Slot>, d: seq<Piece>)
    requires TypedSlots(fields, slots)
    decreases fields, 4, 0
  {
    && (forall j :: 0 <= j < |d| ==> PieceOk(c, fields, slots, d[j]))
    && (forall j, k :: 0 <= j < k < |d| && d[j].Known? && d[k].Known? ==> d[j].i != d[k].i)
  }

  predicate Pending(d: seq<Piece>, i: nat) {
    exists j :: 0 <= j < |d| && d[j].Known? && d[j].i == i
  }

  /** The bodies that a reader of `|d|` keys, one after the other, meets among the first `|d|` items. */
  ghost predicate BodiesReadAsKeys(c: Codec, d: seq<Piece>) {
    forall j :: 0 <= j && 2 * j + 1 < |d| ==> DecStr(c.fmt, d[j].body).Ok?
  }

  /**
   The entries of an encoded struct. The code emitted for a struct without fields has no branch
   that skips values, so it takes what follows a key for the next key.
   */
  ghost predicate Layout(c: Codec, fields: seq<Field>, slots: seq<Slot>, d: seq<Piece>)
    requires TypedSlots(fields, slots)
    decreases fields, 5, 0
  {
    && |d| < TWO_TO_THE_32
    && (fields == [] ==> BodiesReadAsKeys(c, d))
    && PiecesOk(c, fields, slots, d)
    && (forall i :: 0 <= i < |fields| && OnWire(fields[i], slots[i]) ==> Pending(d, i))
  }

  // ----- What reading leaves in the destination -----

  /** Structs are read into what the destination holds; everything else replaces it. */
  function MergeVal(ty: Type, cur: Value, v: Value): (r: Value)
    requires WellFormed(ty) && Typed(ty, cur) && Typed(ty, v)
    ensures Typed(ty, r)
    decreases ty, 0
  {
    match ty
    case TStruct(fields) => StructV(MergeSlots(fields, cur.slots, v.slots))
    case TOneof(_, variants) =>
      if 0 <= v.tag < |variants| then
        var fields := variants[v.tag].fields;
        InitSlotsTyped(fields);
        OneofV(v.tag, StructV(MergeSlots(fields, InitSlots(fields), v.val.slots)))
      else v
    case _ => v
  }

  function MergeElems(ty: Type, curs: seq<Value>, elems: seq<Value>): (r: seq<Value>)
    requires WellFormed(ty) && |curs| == |elems|
    requires (forall e :: e in curs ==> Typed(ty, e)) && (forall e :: e in elems ==> Typed(ty, e))
    ensures |r| == |elems| && forall e :: e in r ==> Typed(ty, e)
    decreases ty, 1, |elems|
  {
    if elems == [] then [] else [MergeVal(ty, curs[0], elems[0])] + MergeElems(ty, curs[1..], elems[1..])
  }

  function MergeField(f: Field, cur: Value, v: Value): (r: Value)
    requires WellFormedField(f) && TypedField(f, cur) && TypedField(f, v)
    ensures TypedField(f, r)
    decreases f, 1
  {
    match f.shape
    case Single => MergeVal(f.ty, cur, v)
    case Fixed(_) => ArrV(MergeElems(f.ty, cur.elems, v.elems))
    case Dynamic => ZeroIsTyped(f.ty); ArrV(MergeElems(f.ty, Repeat(|v.elems|, Zero(f.ty)), v.elems))
    case Map => v
  }

  function MergeSlot(f: Field, cur: Slot, src: Slot): (r: Slot)
    requires WellFormedField(f) && TypedField(f, cur.val) && TypedField(f, src.val)
    ensures TypedField(f, r.val)
    decreases f, 2
  {
    if !OnWire(f, src) then cur
    else if f.nullable && !src.has then Slot(false, cur.val)
    else Slot(if f.nullable || f.optional then true else cur.has, MergeField(f, cur.val, src.val))
  }

  function MergeSlots(fields: seq<Field>, cur: seq<Slot>, src: seq<Slot>): (r: seq<Slot>)
    requires WellFormedFields(fields) && TypedSlots(fields, cur) && TypedSlots(fields, src)
    ensures TypedSlots(fields, r)
    ensures forall i :: 0 <= i < |fields| ==>
                          WellFormedField(fields[i]) && r[i] == MergeSlot(fields[i], cur[i], src[i])
    decreases fields, 3
  {
    seq(|fields|, i requires 0 <= i < |fields| =>
      (assert WellFormedField(fields[i]); assert TypedField(fields[i], cur[i].val);
       assert TypedField(fields[i], src[i].val); MergeSlot(fields[i], cur[i], src[i])))
  }
}
