/** What the emitted pack functions append, as functions of the object. */
module Packing {
  import opened Bytes
  import opened Floats
  import opened Wire
  import opened Schema

  /** The wire format and the float conversions of the platform. */
  datatype Codec = Codec(fmt: Format, fp: FloatOps)

  function PackVal(c: Codec, ty: Type, v: Value): bytes
    requires Typed(ty, v)
    decreases ty, 0, 0
  {
    match ty
    case TInt(_, signed, _) => if signed then EncInt(c.fmt, v.i) else EncUint(c.fmt, v.i)
    case TBool => EncBool(c.fmt, v.b)
    case TFloat => EncFloat(c.fmt, v.f)
    case TDouble => EncDouble(c.fmt, v.d)
    case TStr => EncStr(c.fmt, v.s)
    case TEnum(names) => if 0 <= v.i < |names| then EncStr(c.fmt, names[v.i]) else EncInt(c.fmt, v.i)
    case TStruct(fields) => PackSlots(c, fields, v.slots)
    case TOneof(tagKey, variants) =>
      var known := 0 <= v.tag < |variants|;
      var body := if known then PackSlots(c, variants[v.tag].fields, v.val.slots) else [];
      Splice(c.fmt, tagKey,
             if known then EncStr(c.fmt, variants[v.tag].name) else EncInt(c.fmt, v.tag),
             body)
  }

  /** The entry count of a packed map and what follows its header. */
  function HeaderOf(f: Format, body: bytes): (nat, bytes) {
    var h := if body == [] then Err else DecMapHeader(f, body);
    if h.Ok? then (h.val, h.rest) else (0, [])
  }

  /**
   The header of the packed variant is read back, a header for one more entry is written, and
   whatever followed the variant's header is copied after the tag entry.
   */
  function Splice(f: Format, tagKey: bytes, tag: bytes, body: bytes): bytes {
    var h := HeaderOf(f, body);
    EncMapHeader(f, (1 + h.0) % TWO_TO_THE_32) + EncStr(f, tagKey) + tag + h.1
  }

  function PackElems(c: Codec, ty: Type, elems: seq<Value>): bytes
    requires forall e :: e in elems ==> Typed(ty, e)
    decreases ty, 1, |elems|
  {
    if elems == [] then [] else PackVal(c, ty, elems[0]) + PackElems(c, ty, elems[1..])
  }

  function PackMapEntries(c: Codec, ty: Type, entries: seq<(bytes, Value)>): bytes
    requires forall e :: e in entries ==> Typed(ty, e.1)
    decreases ty, 1, |entries|
  {
    if entries == [] then []
    else EncStr(c.fmt, entries[0].0) + PackVal(c, ty, entries[0].1) + PackMapEntries(c, ty, entries[1..])
  }

  function PackField(c: Codec, f: Field, v: Value): bytes
    requires TypedField(f, v)
    decreases f, 1
  {
    match f.shape
    case Single => PackVal(c, f.ty, v)
    case Fixed(_) => EncArrayHeader(c.fmt, |v.elems|) + PackElems(c, f.ty, v.elems)
    case Dynamic => EncArrayHeader(c.fmt, |v.elems|) + PackElems(c, f.ty, v.elems)
    case Map => EncMapHeader(c.fmt, |v.entries|) + PackMapEntries(c, f.ty, v.entries)
  }

  function PackSlot(c: Codec, f: Field, slot: Slot): bytes
    requires TypedField(f, slot.val)
    decreases f, 2
  {
    if f.nullable && !slot.has then [Nil(c.fmt)] else PackField(c, f, slot.val)
  }

  function PackEntry(c: Codec, f: Field, slot: Slot): bytes
    requires TypedField(f, slot.val)
    decreases f, 3
  {
    if OnWire(f, slot) then EncStr(c.fmt, f.key) + PackSlot(c, f, slot) else []
  }

  function PackEntries(c: Codec, fields: seq<Field>, slots: seq<Slot>): bytes
    requires TypedSlots(fields, slots)
    decreases fields, 0
  {
    if fields == [] then [] else PackEntry(c, fields[0], slots[0]) + PackEntries(c, fields[1..], slots[1..])
  }

  function CountOnWire(fields: seq<Field>, slots: seq<Slot>): (n: nat)
    requires |fields| == |slots|
    ensures n <= |fields|
  {
    if fields == [] then 0
    else (if OnWire(fields[0], slots[0]) then 1 else 0) + CountOnWire(fields[1..], slots[1..])
  }

  function PackSlots(c: Codec, fields: seq<Field>, slots: seq<Slot>): bytes
    requires TypedSlots(fields, slots)
    decreases fields, 1
  {
    EncMapHeader(c.fmt, CountOnWire(fields, slots)) + PackEntries(c, fields, slots)
  }

  /** The wrapper that packs an array of structs or unions on its own. */
  function PackArray(c: Codec, ty: Type, objs: seq<Value>): bytes
    requires forall e :: e in objs ==> Typed(ty, e)
  {
    EncArrayHeader(c.fmt, |objs|) + PackElems(c, ty, objs)
  }
}
