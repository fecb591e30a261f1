/**
 The emitted pack and unpack functions, run over a schema: writers append to a buffer, readers
 move a cursor and write fields in place. Each does what its specification function says.
 */
module Emitted {
  import opened Bytes
  import opened Wire
  import opened Schema
  import opened Packing
  import opened Unpacking
  import opened Runtime
  import opened Sstr
  import opened Encoding
  import opened PackCorrect
  import opened SchemaCodec
  import CborRuntime
  import MsgPackRuntime
  import Cbor
  import MsgPack

  /** An instance of a generated struct. */
  class Object {
    var slots: seq<Slot>

    constructor (slots: seq<Slot>)
      ensures this.slots == slots
    {
      this.slots := slots;
    }
  }

  // ----- Choosing the runtime -----

  method WriteInt(f: Format, out: Buffer, v: int)
    requires out.Valid() && -TWO_TO_THE_63 <= v < TWO_TO_THE_63
    modifies out.Repr
    ensures out.Valid() && fresh(out.Repr - old(out.Repr))
    ensures out.Contents() == old(out.Contents()) + EncInt(f, v)
  {
    match f
    case CBOR => CborRuntime.PackInt(out, v);
    case MSGPACK => MsgPackRuntime.PackInt(out, v);
  }

  method WriteUint(f: Format, out: Buffer, v: u64)
    requires out.Valid()
    modifies out.Repr
    ensures out.Valid() && fresh(out.Repr - old(out.Repr))
    ensures out.Contents() == old(out.Contents()) + EncUint(f, v)
  {
    match f
    case CBOR => CborRuntime.EncodeHead(out, Cbor.MAJOR_UINT, v);
    case MSGPACK => MsgPackRuntime.PackUint(out, v);
  }

  method WriteStr(f: Format, out: Buffer, s: bytes)
    requires out.Valid()
    modifies out.Repr
    ensures out.Valid() && fresh(out.Repr - old(out.Repr))
    ensures out.Contents() == old(out.Contents()) + EncStr(f, s)
  {
    match f
    case CBOR => CborRuntime.PackStr(out, s);
    case MSGPACK => MsgPackRuntime.PackStr(out, s);
  }

  method WriteArrayHeader(f: Format, out: Buffer, n: nat)
    requires out.Valid()
    modifies out.Repr
    ensures out.Valid() && fresh(out.Repr - old(out.Repr))
    ensures out.Contents() == old(out.Contents()) + EncArrayHeader(f, n)
  {
    match f
    case CBOR => CborRuntime.EncodeHead(out, Cbor.MAJOR_ARRAY, n % TWO_TO_THE_32);
    case MSGPACK => MsgPackRuntime.PackArrayHeader(out, n);
  }

  method WriteMapHeader(f: Format, out: Buffer, n: nat)
    requires out.Valid()
    modifies out.Repr
    ensures out.Valid() && fresh(out.Repr - old(out.Repr))
    ensures out.Contents() == old(out.Contents()) + EncMapHeader(f, n)
  {
    match f
    case CBOR => CborRuntime.EncodeHead(out, Cbor.MAJOR_MAP, n % TWO_TO_THE_32);
    case MSGPACK => MsgPackRuntime.PackMapHeader(out, n);
  }

  method ReadStr(f: Format, r: Reader) returns (ok: bool, s: bytes)
    requires r.Valid()
    modifies r`pos
    ensures r.Valid() && ok == DecStr(f, old(r.Rest())).Ok?
    ensures ok ==> DecStr(f, old(r.Rest())) == Ok(s, r.Rest())
  {
    match f
    case CBOR => ok, s := CborRuntime.UnpackStr(r);
    case MSGPACK => ok, s := MsgPackRuntime.UnpackStr(r);
  }

  method ReadArrayHeader(f: Format, r: Reader) returns (ok: bool, n: nat)
    requires r.Valid()
    modifies r`pos
    ensures r.Valid() && ok == DecArrayHeader(f, old(r.Rest())).Ok?
    ensures ok ==> DecArrayHeader(f, old(r.Rest())) == Ok(n, r.Rest())
  {
    match f
    case CBOR => ok, n := CborRuntime.UnpackHeader(r, Cbor.MAJOR_ARRAY);
    case MSGPACK => ok, n := MsgPackRuntime.UnpackArrayHeader(r);
  }

  method ReadMapHeader(f: Format, r: Reader) returns (ok: bool, n: nat)
    requires r.Valid()
    modifies r`pos
    ensures r.Valid() && ok == DecMapHeader(f, old(r.Rest())).Ok?
    ensures ok ==> DecMapHeader(f, old(r.Rest())) == Ok(n, r.Rest())
  {
    match f
    case CBOR => ok, n := CborRuntime.UnpackHeader(r, Cbor.MAJOR_MAP);
    case MSGPACK => ok, n := MsgPackRuntime.UnpackMapHeader(r);
  }

  method ReadBool(f: Format, r: Reader) returns (ok: bool, b: bool)
    requires r.Valid()
    modifies r`pos
    ensures r.Valid() && ok == DecBool(f, old(r.Rest())).Ok?
    ensures ok ==> DecBool(f, old(r.Rest())) == Ok(b, r.Rest())
  {
    match f
    case CBOR => ok, b := CborRuntime.UnpackBool(r);
    case MSGPACK => ok, b := MsgPackRuntime.UnpackBool(r);
  }

  method ReadDouble(c: Codec, r: Reader) returns (ok: bool, d: u64)
    requires r.Valid()
    modifies r`pos
    ensures r.Valid() && ok == DecDouble(c.fmt, c.fp, old(r.Rest())).Ok?
    ensures ok ==> DecDouble(c.fmt, c.fp, old(r.Rest())) == Ok(d, r.Rest())
  {
    match c.fmt
    case CBOR => ok, d := CborRuntime.UnpackDouble(c.fp, r);
    case MSGPACK => ok, d := MsgPackRuntime.UnpackDouble(c.fp, r);
  }

  /** A float marker ahead sends an integer reader through the double reader. */
  method ReadInteger(c: Codec, bits: nat, signed: bool, fromFloat: bool, r: Reader) returns (ok: bool, v: Value)
    requires r.Valid()
    modifies r`pos
    ensures r.Valid() && ok == UnpackInt(c, bits, signed, fromFloat, old(r.Rest())).Ok?
    ensures ok ==> UnpackInt(c, bits, signed, fromFloat, old(r.Rest())) == Ok(v, r.Rest())
  {
    var i := 0;
    var b := r.Peek();
    var f32: int := if c.fmt == CBOR then Cbor.FLOAT32 else MsgPack.FLOAT32;
    var f64: int := if c.fmt == CBOR then Cbor.FLOAT64 else MsgPack.FLOAT64;
    if fromFloat && (b == f32 || b == f64) {
      var d;
      ok, d := ReadDouble(c, r);
      i := if !ok then 0 else if signed then c.fp.toSigned(d) else c.fp.toUnsigned(d);
    } else if signed {
      match c.fmt {
        case CBOR => ok, i := CborRuntime.UnpackInt64(r);
        case MSGPACK => ok, i := MsgPackRuntime.UnpackInt64(r);
      }
    } else {
      match c.fmt {
        case CBOR => ok, i := CborRuntime.UnpackUint64(r);
        case MSGPACK => ok, i := MsgPackRuntime.UnpackUint64(r);
      }
    }
    v := IntV(Wrap(bits, signed, i));
  }

  method SkipOne(f: Format, r: Reader) returns (ok: bool)
    requires r.Valid()
    modifies r`pos
    ensures r.Valid() && SkipR(ok, r.Rest()) == Skip(f, old(r.Rest()))
  {
    match f
    case CBOR => ok := CborRuntime.Skip(r);
    case MSGPACK => ok := MsgPackRuntime.Skip(r);
  }

  // ----- Packing -----

  method PackValue(c: Codec, ty: Type, v: Value, out: Buffer)
    requires WellFormed(ty) && Typed(ty, v) && out.Valid()
    modifies out.Repr
    ensures out.Valid() && fresh(out.Repr - old(out.Repr))
    ensures out.Contents() == old(out.Contents()) + PackVal(c, ty, v)
    decreases ty, 0, 0
  {
    hide Wire.EncUint, Wire.EncInt, Wire.EncBool, Wire.EncFloat, Wire.EncDouble, Wire.EncStr, PackSlots, Splice;
    match ty
    case TInt(_, signed, _) =>
      if signed { WriteInt(c.fmt, out, v.i); } else { WriteUint(c.fmt, out, v.i); }
    case TBool => out.AppendOf(EncBool(c.fmt, v.b));
    case TFloat => out.AppendOf(EncFloat(c.fmt, v.f));
    case TDouble => out.AppendOf(EncDouble(c.fmt, v.d));
    case TStr => WriteStr(c.fmt, out, v.s);
    case TEnum(names) =>
      if 0 <= v.i < |names| { WriteStr(c.fmt, out, names[v.i]); } else { WriteInt(c.fmt, out, v.i); }
    case TStruct(fields) => PackStruct(c, fields, v.slots, out);
    case TOneof(tagKey, variants) => PackOneof(c, tagKey, variants, v, out);
  }

  /** The bytes of a tag: its name, or its number when it has none. */
  function TagBytes(c: Codec, variants: seq<Variant>, tag: int): bytes
    requires InWidth(32, true, tag)
  {
    if 0 <= tag < |variants| then EncStr(c.fmt, variants[tag].name) else EncInt(c.fmt, tag)
  }

  method WriteTagEntry(c: Codec, tagKey: bytes, variants: seq<Variant>, tag: int, out: Buffer)
    requires InWidth(32, true, tag) && out.Valid()
    modifies out.Repr
    ensures out.Valid() && fresh(out.Repr - old(out.Repr))
    ensures out.Contents() == old(out.Contents()) + (EncStr(c.fmt, tagKey) + TagBytes(c, variants, tag))
  {
    hide Wire.EncInt, Wire.EncStr;
    WriteStr(c.fmt, out, tagKey);
    if 0 <= tag < |variants| {
      WriteStr(c.fmt, out, variants[tag].name);
    } else {
      WriteInt(c.fmt, out, tag);
    }
    Regroup(old(out.Contents()), EncStr(c.fmt, tagKey), TagBytes(c, variants, tag));
  }

  /** The variant is packed aside, its header read back, and the rest copied behind the tag. */
  method PackOneof(c: Codec, tagKey: bytes, variants: seq<Variant>, v: Value, out: Buffer)
    requires WellFormed(TOneof(tagKey, variants)) && Typed(TOneof(tagKey, variants), v) && out.Valid()
    modifies out.Repr
    ensures out.Valid() && fresh(out.Repr - old(out.Repr))
    ensures out.Contents() == old(out.Contents()) + PackVal(c, TOneof(tagKey, variants), v)
    decreases variants, 2, 0
  {
    hide Wire.EncStr, Wire.EncMapHeader, HeaderOf, PackSlots, PackVal, TagBytes, TypedSlots, WellFormedFields;
    hide WellFormed, Typed;
    VariantIsTyped(tagKey, variants, v);
    var body := [];
    if 0 <= v.tag < |variants| {
      body := PackAside(c, variants, v);
    }
    var count, entries := ReadBack(c.fmt, body);
    WriteMapHeader(c.fmt, out, (1 + count) % TWO_TO_THE_32);
    WriteTagEntry(c, tagKey, variants, v.tag, out);
    out.AppendOf(entries);
    OneofIsSpliced(c, tagKey, variants, v, body, old(out.Contents()));
  }

  lemma {:induction false} VariantIsTyped(tagKey: bytes, variants: seq<Variant>, v: Value)
    requires WellFormed(TOneof(tagKey, variants)) && Typed(TOneof(tagKey, variants), v)
    ensures v.OneofV? && InWidth(32, true, v.tag)
    ensures 0 <= v.tag < |variants| ==>
              && v.val.StructV? && TypedSlots(variants[v.tag].fields, v.val.slots)
              && WellFormedFields(variants[v.tag].fields)
  {
    hide TypedSlots, WellFormedFields;
  }

  lemma {:induction false} OneofIsSpliced(c: Codec, tagKey: bytes, variants: seq<Variant>, v: Value, body: bytes, was: bytes)
    requires Typed(TOneof(tagKey, variants), v)
    requires 0 <= v.tag < |variants| ==> body == PackSlots(c, variants[v.tag].fields, v.val.slots)
    requires !(0 <= v.tag < |variants|) ==> body == []
    ensures var h := HeaderOf(c.fmt, body);
            was + EncMapHeader(c.fmt, (1 + h.0) % TWO_TO_THE_32) + (EncStr(c.fmt, tagKey) + TagBytes(c, variants, v.tag)) + h.1
            == was + PackVal(c, TOneof(tagKey, variants), v)
  {
    hide Wire.EncInt, Wire.EncStr, Wire.EncMapHeader, HeaderOf, PackSlots, TypedSlots;
    var h := HeaderOf(c.fmt, body);
    FourParts(was, EncMapHeader(c.fmt, (1 + h.0) % TWO_TO_THE_32), EncStr(c.fmt, tagKey), TagBytes(c, variants, v.tag), h.1);
  }

  method PackAside(c: Codec, variants: seq<Variant>, v: Value) returns (body: bytes)
    requires v.OneofV? && 0 <= v.tag < |variants| && v.val.StructV?
    requires TypedSlots(variants[v.tag].fields, v.val.slots) && WellFormedFields(variants[v.tag].fields)
    ensures body == PackSlots(c, variants[v.tag].fields, v.val.slots)
    decreases variants, 1, 0
  {
    hide PackSlots, TypedSlots, WellFormedFields;
    var tmp := new Buffer();
    PackStruct(c, variants[v.tag].fields, v.val.slots, tmp);
    body := tmp.Bytes();
    assert [] + PackSlots(c, variants[v.tag].fields, v.val.slots) == PackSlots(c, variants[v.tag].fields, v.val.slots);
  }

  lemma {:induction false} FourParts(was: bytes, a: bytes, b: bytes, x: bytes, y: bytes)
    ensures was + a + (b + x) + y == was + (a + b + x + y)
  {
  }

  method ReadBack(f: Format, body: bytes) returns (count: nat, entries: bytes)
    ensures (count, entries) == HeaderOf(f, body)
  {
    hide Wire.DecMapHeader;
    var cr := new Reader(body);
    count, entries := 0, [];
    if |body| > 0 {
      var ok, n := ReadMapHeader(f, cr);
      if ok {
        count, entries := n, body[cr.pos..];
      }
    }
  }

  lemma {:induction false} PackElemsStep(c: Codec, ty: Type, elems: seq<Value>, i: nat, was: bytes)
    requires i < |elems| && forall e :: e in elems ==> Typed(ty, e)
    ensures was + PackElems(c, ty, elems[i..]) == was + PackVal(c, ty, elems[i]) + PackElems(c, ty, elems[i + 1..])
  {
    hide PackVal, Typed;
    assert elems[i..][0] == elems[i] && elems[i..][1..] == elems[i + 1..];
  }

  lemma {:induction false} PackMapStep(c: Codec, ty: Type, entries: seq<(bytes, Value)>, i: nat, was: bytes)
    requires i < |entries| && forall e :: e in entries ==> Typed(ty, e.1)
    ensures was + PackMapEntries(c, ty, entries[i..])
            == was + EncStr(c.fmt, entries[i].0) + PackVal(c, ty, entries[i].1) + PackMapEntries(c, ty, entries[i + 1..])
  {
    hide PackVal, Typed, Wire.EncStr;
    assert entries[i..][0] == entries[i] && entries[i..][1..] == entries[i + 1..];
  }

  lemma {:induction false} PackNothing(c: Codec, ty: Type, was: bytes)
    ensures PackElems(c, ty, []) == [] && PackMapEntries(c, ty, []) == []
  {
  }

  method PackElements(c: Codec, ty: Type, elems: seq<Value>, out: Buffer)
    requires WellFormed(ty) && (forall e :: e in elems ==> Typed(ty, e)) && out.Valid()
    modifies out.Repr
    ensures out.Valid() && fresh(out.Repr - old(out.Repr))
    ensures out.Contents() == old(out.Contents()) + PackElems(c, ty, elems)
    decreases ty, 1, 0
  {
    hide PackVal, PackElems, Typed, WellFormed;
    assert elems[0..] == elems;
    PackNothing(c, ty, out.Contents());
    for i := 0 to |elems|
      invariant out.Valid() && fresh(out.Repr - old(out.Repr))
      invariant out.Contents() + PackElems(c, ty, elems[i..]) == old(out.Contents()) + PackElems(c, ty, elems)
    {
      PackElemsStep(c, ty, elems, i, out.Contents());
      PackValue(c, ty, elems[i], out);
    }
    assert elems[|elems|..] == [];
    assert out.Contents() + [] == out.Contents();
  }

  method PackMap(c: Codec, ty: Type, entries: seq<(bytes, Value)>, out: Buffer)
    requires WellFormed(ty) && (forall e :: e in entries ==> Typed(ty, e.1)) && out.Valid()
    modifies out.Repr
    ensures out.Valid() && fresh(out.Repr - old(out.Repr))
    ensures out.Contents() == old(out.Contents()) + PackMapEntries(c, ty, entries)
    decreases ty, 1, 0
  {
    hide PackVal, PackMapEntries, Typed, WellFormed, Wire.EncStr;
    assert entries[0..] == entries;
    PackNothing(c, ty, out.Contents());
    for i := 0 to |entries|
      invariant out.Valid() && fresh(out.Repr - old(out.Repr))
      invariant out.Contents() + PackMapEntries(c, ty, entries[i..])
                == old(out.Contents()) + PackMapEntries(c, ty, entries)
    {
      PackMapStep(c, ty, entries, i, out.Contents());
      WriteStr(c.fmt, out, entries[i].0);
      PackValue(c, ty, entries[i].1, out);
    }
    assert entries[|entries|..] == [];
    assert out.Contents() + [] == out.Contents();
  }

  method PackBody(c: Codec, f: Field, slot: Slot, out: Buffer)
    requires WellFormedField(f) && TypedField(f, slot.val) && out.Valid()
    modifies out.Repr
    ensures out.Valid() && fresh(out.Repr - old(out.Repr))
    ensures out.Contents() == old(out.Contents()) + PackSlot(c, f, slot)
    decreases f, 2, 0
  {
    hide PackVal, PackElems, PackMapEntries, Typed, WellFormed, Wire.EncArrayHeader, Wire.EncMapHeader;
    ghost var was := out.Contents();
    var v := slot.val;
    if f.nullable && !slot.has {
      out.AppendOf([Nil(c.fmt)]);
    } else if f.shape.Map? {
      WriteMapHeader(c.fmt, out, |v.entries|);
      PackMap(c, f.ty, v.entries, out);
      assert out.Contents() == was + (EncMapHeader(c.fmt, |v.entries|) + PackMapEntries(c, f.ty, v.entries));
    } else if f.shape.Fixed? || f.shape.Dynamic? {
      WriteArrayHeader(c.fmt, out, |v.elems|);
      PackElements(c, f.ty, v.elems, out);
      assert out.Contents() == was + (EncArrayHeader(c.fmt, |v.elems|) + PackElems(c, f.ty, v.elems));
    } else {
      PackValue(c, f.ty, v, out);
    }
  }

  /** The count starts at all fields and drops the absent ones. */
  method CountFields(fields: seq<Field>, slots: seq<Slot>) returns (n: nat)
    requires |fields| == |slots|
    ensures n == CountOnWire(fields, slots)
  {
    var m: int := |fields|;
    assert fields[0..] == fields && slots[0..] == slots;
    for i := 0 to |fields|
      invariant m - (|fields| - i) + CountOnWire(fields[i..], slots[i..]) == CountOnWire(fields, slots)
    {
      assert fields[i..][1..] == fields[i + 1..] && slots[i..][1..] == slots[i + 1..];
      if fields[i].optional && !slots[i].has {
        m := m - 1;
      }
    }
    n := m;
  }

  method PackStruct(c: Codec, fields: seq<Field>, slots: seq<Slot>, out: Buffer)
    requires WellFormedFields(fields) && TypedSlots(fields, slots) && out.Valid()
    modifies out.Repr
    ensures out.Valid() && fresh(out.Repr - old(out.Repr))
    ensures out.Contents() == old(out.Contents()) + PackSlots(c, fields, slots)
    decreases fields, 3, 0
  {
    hide PackSlot, TypedField, WellFormedField, Wire.EncMapHeader, Wire.EncStr, PackEntries;
    var n := CountFields(fields, slots);
    WriteMapHeader(c.fmt, out, n);
    assert fields[0..] == fields && slots[0..] == slots;
    Regroup(old(out.Contents()), EncMapHeader(c.fmt, n), PackEntries(c, fields, slots));
    for i := 0 to |fields|
      invariant out.Valid() && fresh(out.Repr - old(out.Repr))
      invariant out.Contents() + PackEntries(c, fields[i..], slots[i..])
                == old(out.Contents()) + PackSlots(c, fields, slots)
    {
      PackEntriesStep(c, fields, slots, i, out.Contents());
      assert WellFormedField(fields[i]) && TypedField(fields[i], slots[i].val);
      if OnWire(fields[i], slots[i]) {
        WriteStr(c.fmt, out, fields[i].key);
        PackBody(c, fields[i], slots[i], out);
      }
    }
    assert PackEntries(c, [], []) == [] by { NoEntries(c); }
  }

  lemma {:induction false} NoEntries(c: Codec)
    ensures PackEntries(c, [], []) == []
  {
  }

  lemma {:induction false} PackEntriesStep(c: Codec, fields: seq<Field>, slots: seq<Slot>, i: nat, was: bytes)
    requires i < |fields| && TypedSlots(fields, slots)
    ensures TypedField(fields[i], slots[i].val)
    ensures was + PackEntries(c, fields[i..], slots[i..])
            == (if OnWire(fields[i], slots[i]) then was + EncStr(c.fmt, fields[i].key) + PackSlot(c, fields[i], slots[i]) else was)
               + PackEntries(c, fields[i + 1..], slots[i + 1..])
  {
    hide PackSlot, Wire.EncStr;
    assert fields[i..][1..] == fields[i + 1..] && slots[i..][1..] == slots[i + 1..];
  }

  // ----- Unpacking -----

  method ReadEnum(c: Codec, names: seq<bytes>, r: Reader) returns (ok: bool, v: Value)
    requires |names| < TWO_TO_THE_31 && r.Valid()
    modifies r`pos
    ensures r.Valid() && ok == UnpackEnum(c, names, old(r.Rest())).Ok?
    ensures ok ==> UnpackEnum(c, names, old(r.Rest())) == Ok(v, r.Rest())
  {
    hide Wire.DecStr, UnpackInt;
    v := IntV(0);
    var b := r.Peek();
    if b == -1 { return false, v; }
    if b == Nil(c.fmt) {
      r.pos := r.pos + 1;
      return true, v;
    }
    if LooksLikeInt(c.fmt, b) {
      ok, v := ReadInteger(c, 32, true, true, r);
      return;
    }
    var good, name := ReadStr(c.fmt, r);
    if !good { return false, v; }
    var i := IndexOf(names, name);
    if i == -1 { return false, v; }
    return true, IntV(i);
  }

  /** Reads one value over `cur`. */
  method UnpackValue(c: Codec, ty: Type, r: Reader, cur: Value) returns (ok: bool, v: Value)
    requires WellFormed(ty) && Typed(ty, cur) && r.Valid()
    modifies r`pos
    ensures r.Valid() && ok == UnpackVal(c, ty, old(r.Rest()), cur).Ok?
    ensures ok ==> UnpackVal(c, ty, old(r.Rest()), cur) == Ok(v, r.Rest())
    decreases ty, 0, 0
  {
    hide Wire.DecBool, Wire.DecDouble, Wire.DecStr, Wire.Skip, UnpackSlots, UnpackOneof, UnpackEnum, UnpackInt;
    v := cur;
    match ty
    case TInt(bits, signed, fromFloat) => ok, v := ReadInteger(c, bits, signed, fromFloat, r);
    case TBool => var b; ok, b := ReadBool(c.fmt, r); v := BoolV(b);
    case TFloat => var d; ok, d := ReadDouble(c, r); v := FloatV(c.fp.narrow(d));
    case TDouble => var d; ok, d := ReadDouble(c, r); v := DoubleV(d);
    case TStr => var s; ok, s := ReadStr(c.fmt, r); v := StrV(s);
    case TEnum(names) => ok, v := ReadEnum(c, names, r);
    case TStruct(fields) =>
      var nested := new Object(cur.slots);
      ok := UnpackStruct(c, fields, r.data[r.pos..], nested);
      if ok {
        v := StructV(nested.slots);
        ok := AdvancePast(c.fmt, r);
      }
    case TOneof(tagKey, variants) =>
      ok, v := UnpackTaggedUnion(c, tagKey, variants, r.data[r.pos..]);
      if ok {
        ok := AdvancePast(c.fmt, r);
      }
  }

  /** A second reader over the same bytes skips the item and tells how far the first must move. */
  method AdvancePast(f: Format, r: Reader) returns (ok: bool)
    requires r.Valid()
    modifies r`pos
    ensures r.Valid() && ok == Skip(f, old(r.Rest())).ok
    ensures ok ==> r.Rest() == Skip(f, old(r.Rest())).rest
  {
    hide Wire.Skip;
    var before := r.pos;
    var tmp := new Reader(r.data[before..]);
    ok := SkipOne(f, tmp);
    if ok {
      assert r.data[before + tmp.pos..] == r.data[before..][tmp.pos..];
      r.pos := before + tmp.pos;
    }
  }

  method UnpackTaggedUnion(c: Codec, tagKey: bytes, variants: seq<Variant>, data: bytes) returns (ok: bool, v: Value)
    requires WellFormed(TOneof(tagKey, variants))
    ensures ok == UnpackOneof(c, tagKey, variants, data).Some?
    ensures ok ==> UnpackOneof(c, tagKey, variants, data) == Some(v)
    decreases variants, 1, 0
  {
    hide Wire.DecMapHeader, Wire.DecStr, FindTag, WellFormed, UnpackOneof;
    v := IntV(0);
    OneofInTwoPasses(c, tagKey, variants, data);
    var r := new Reader(data);
    var good, n := ReadMapHeader(c.fmt, r);
    if !good { return false, v; }
    var found, tag := ScanForTag(c.fmt, tagKey, Names(variants), r, n);
    if !found || !(0 <= tag < |variants|) { return false, v; }
    ok, v := UnpackVariant(c, tagKey, variants, tag, data);
  }

  /** Pass two, as a function of the tag. */
  function VariantOf(c: Codec, tagKey: bytes, variants: seq<Variant>, tag: nat, data: bytes): Option<Value>
    requires WellFormed(TOneof(tagKey, variants)) && tag < |variants|
  {
    VariantIsWellFormed(tagKey, variants, tag);
    match UnpackSlots(c, variants[tag].fields, data, InitSlots(variants[tag].fields))
    case None => None
    case Some(slots) => Some(OneofV(tag, StructV(slots)))
  }

  lemma {:induction false} OneofInTwoPasses(c: Codec, tagKey: bytes, variants: seq<Variant>, data: bytes)
    requires WellFormed(TOneof(tagKey, variants))
    ensures UnpackOneof(c, tagKey, variants, data)
            == match DecMapHeader(c.fmt, data)
               case Err => None
               case Ok(n, rest) =>
                 match FindTag(c.fmt, tagKey, Names(variants), rest, n, -1)
                 case None => None
                 case Some(tag) => if 0 <= tag < |variants| then VariantOf(c, tagKey, variants, tag, data) else None
  {
    hide Wire.DecMapHeader, FindTag, UnpackSlots, WellFormedFields, TypedSlots, InitSlots;
  }

  method UnpackVariant(c: Codec, tagKey: bytes, variants: seq<Variant>, tag: nat, data: bytes) returns (ok: bool, v: Value)
    requires WellFormed(TOneof(tagKey, variants)) && tag < |variants|
    ensures ok == VariantOf(c, tagKey, variants, tag, data).Some?
    ensures ok ==> VariantOf(c, tagKey, variants, tag, data) == Some(v)
    decreases variants, 0, 0
  {
    hide UnpackSlots, WellFormedFields, TypedSlots, WellFormed, InitSlots;
    VariantIsWellFormed(tagKey, variants, tag);
    var obj := new Object(InitSlots(variants[tag].fields));
    ok := UnpackStruct(c, variants[tag].fields, data, obj);
    v := OneofV(tag, StructV(obj.slots));
  }

  lemma {:induction false} VariantIsWellFormed(tagKey: bytes, variants: seq<Variant>, tag: nat)
    requires WellFormed(TOneof(tagKey, variants)) && tag < |variants|
    ensures WellFormedFields(variants[tag].fields) && TypedSlots(variants[tag].fields, InitSlots(variants[tag].fields))
  {
    hide TypedSlots, WellFormedFields, InitSlots;
    InitSlotsTyped(variants[tag].fields);
  }

  /** Pass one: the tag's entry may be anywhere; later ones override. */
  method ScanForTag(f: Format, tagKey: bytes, names: seq<bytes>, r: Reader, n: nat) returns (ok: bool, tag: int)
    requires r.Valid()
    modifies r`pos
    ensures r.Valid() && ok == FindTag(f, tagKey, names, old(r.Rest()), n, -1).Some?
    ensures ok ==> FindTag(f, tagKey, names, old(r.Rest()), n, -1) == Some(tag)
  {
    hide Wire.DecStr, Wire.Skip, IndexOf;
    tag := -1;
    for i := 0 to n
      invariant r.Valid()
      invariant FindTag(f, tagKey, names, r.Rest(), n - i, tag) == FindTag(f, tagKey, names, old(r.Rest()), n, -1)
    {
      var gotKey, key := ReadStr(f, r);
      if !gotKey { return false, tag; }
      if key == tagKey {
        var gotName, name := ReadStr(f, r);
        if !gotName { return false, tag; }
        var k := IndexOf(names, name);
        if k != -1 {
          tag := k;
        }
      } else {
        var skipped := SkipOne(f, r);
      }
    }
    ok := true;
  }

  /** What a loop has read so far, followed by what the rest of the bytes read as. */
  ghost function Then<T>(done: seq<T>, r: Res<seq<T>>): Res<seq<T>> {
    match r
    case Err => Err
    case Ok(more, rest) => Ok(done + more, rest)
  }

  lemma {:induction false} ElemsAfter(c: Codec, ty: Type, s: bytes, curs: seq<Value>, i: nat, done: seq<Value>)
    requires i < |curs| && WellFormed(ty) && forall e :: e in curs ==> Typed(ty, e)
    ensures Then(done, UnpackElems(c, ty, s, curs[i..]))
            == match UnpackVal(c, ty, s, curs[i])
               case Err => Err
               case Ok(v, rest) => Then(done + [v], UnpackElems(c, ty, rest, curs[i + 1..]))
  {
    hide UnpackVal, Typed, WellFormed;
    assert curs[i..][0] == curs[i] && curs[i..][1..] == curs[i + 1..];
    match UnpackVal(c, ty, s, curs[i])
    case Err =>
    case Ok(v, rest) =>
      match UnpackElems(c, ty, rest, curs[i + 1..])
      case Err =>
      case Ok(vs, _) => assert done + ([v] + vs) == done + [v] + vs;
  }

  /** The element loop: each element is read into its place. */
  method UnpackElements(c: Codec, ty: Type, r: Reader, curs: seq<Value>) returns (ok: bool, elems: seq<Value>)
    requires WellFormed(ty) && (forall e :: e in curs ==> Typed(ty, e)) && r.Valid()
    modifies r`pos
    ensures r.Valid() && ok == UnpackElems(c, ty, old(r.Rest()), curs).Ok?
    ensures ok ==> UnpackElems(c, ty, old(r.Rest()), curs) == Ok(elems, r.Rest())
    decreases ty, 1, 0
  {
    hide UnpackVal, UnpackElems, Typed, WellFormed;
    elems := [];
    assert curs[0..] == curs;
    NothingBefore(UnpackElems(c, ty, r.Rest(), curs));
    for i := 0 to |curs|
      invariant r.Valid() && |elems| == i
      invariant Then(elems, UnpackElems(c, ty, r.Rest(), curs[i..])) == UnpackElems(c, ty, old(r.Rest()), curs)
    {
      ElemsAfter(c, ty, r.Rest(), curs, i, elems);
      var good, v := UnpackValue(c, ty, r, curs[i]);
      if !good { return false, elems; }
      elems := elems + [v];
    }
    NoElems(c, ty, r.Rest());
    assert elems + [] == elems;
    ok := true;
  }

  lemma {:induction false} NothingBefore<T>(r: Res<seq<T>>)
    ensures Then([], r) == r
  {
    match r
    case Err =>
    case Ok(more, _) => assert [] + more == more;
  }

  lemma {:induction false} NoElems(c: Codec, ty: Type, s: bytes)
    requires WellFormed(ty)
    ensures UnpackElems(c, ty, s, []) == Ok([], s)
  {
  }

  lemma {:induction false} EntriesAfter(c: Codec, ty: Type, s: bytes, n: nat, done: seq<(bytes, Value)>)
    requires n > 0 && WellFormed(ty) && Flat(ty) && Typed(ty, Zero(ty))
    ensures Then(done, UnpackMapEntries(c, ty, s, n))
            == match DecStr(c.fmt, s)
               case Err => Err
               case Ok(key, rest) =>
                 match UnpackVal(c, ty, rest, Zero(ty))
                 case Err => Err
                 case Ok(v, rest') => Then(done + [(key, v)], UnpackMapEntries(c, ty, rest', n - 1))
  {
    hide UnpackVal, Typed, WellFormed, Wire.DecStr, Flat, Zero;
    match DecStr(c.fmt, s)
    case Err =>
    case Ok(key, rest) =>
      match UnpackVal(c, ty, rest, Zero(ty))
      case Err =>
      case Ok(v, rest') =>
        match UnpackMapEntries(c, ty, rest', n - 1)
        case Err =>
        case Ok(es, _) => assert done + ([(key, v)] + es) == done + [(key, v)] + es;
  }

  method UnpackMap(c: Codec, ty: Type, r: Reader, n: nat) returns (ok: bool, entries: seq<(bytes, Value)>)
    requires WellFormed(ty) && Flat(ty) && r.Valid()
    modifies r`pos
    ensures r.Valid() && ok == UnpackMapEntries(c, ty, old(r.Rest()), n).Ok?
    ensures ok ==> UnpackMapEntries(c, ty, old(r.Rest()), n) == Ok(entries, r.Rest())
    decreases ty, 1, 0
  {
    hide UnpackVal, UnpackMapEntries, Typed, WellFormed, Wire.DecStr, Flat, Zero;
    entries := [];
    ZeroIsTyped(ty);
    NothingBefore(UnpackMapEntries(c, ty, r.Rest(), n));
    for i := 0 to n
      invariant r.Valid()
      invariant Then(entries, UnpackMapEntries(c, ty, r.Rest(), n - i)) == UnpackMapEntries(c, ty, old(r.Rest()), n)
    {
      EntriesAfter(c, ty, r.Rest(), n - i, entries);
      var gotKey, key := ReadStr(c.fmt, r);
      if !gotKey { return false, entries; }
      var good, v := UnpackValue(c, ty, r, Zero(ty));
      if !good { return false, entries; }
      entries := entries + [(key, v)];
    }
    NoMapEntries(c, ty, r.Rest());
    assert entries + [] == entries;
    ok := true;
  }

  lemma {:induction false} NoMapEntries(c: Codec, ty: Type, s: bytes)
    requires WellFormed(ty) && Flat(ty)
    ensures UnpackMapEntries(c, ty, s, 0) == Ok([], s)
  {
  }

  /** Skips what a fixed array has no room for; failures are ignored. */
  method SkipSurplus(f: Format, r: Reader, n: nat)
    requires r.Valid()
    modifies r`pos
    ensures r.Valid() && r.Rest() == SkipLoosely(f, old(r.Rest()), n)
  {
    hide Wire.Skip;
    for i := 0 to n
      invariant r.Valid() && SkipLoosely(f, r.Rest(), n - i) == SkipLoosely(f, old(r.Rest()), n)
    {
      var skipped := SkipOne(f, r);
    }
  }

  method UnpackInto(c: Codec, f: Field, r: Reader, cur: Value) returns (ok: bool, v: Value)
    requires WellFormedField(f) && TypedField(f, cur) && r.Valid()
    modifies r`pos
    ensures r.Valid() && ok == UnpackField(c, f, old(r.Rest()), cur).Ok?
    ensures ok ==> UnpackField(c, f, old(r.Rest()), cur) == Ok(v, r.Rest())
    decreases f, 1, 0
  {
    hide UnpackVal, UnpackElems, UnpackMapEntries, Typed, WellFormed, SkipLoosely;
    hide Wire.DecArrayHeader, Wire.DecMapHeader, Flat, Zero;
    v := cur;
    match f.shape
    case Single => ok, v := UnpackValue(c, f.ty, r, cur);
    case Fixed(size) =>
      var good, count := ReadArrayHeader(c.fmt, r);
      if !good { return false, v; }
      var n := if count < size then count else size;
      var elems;
      ok, elems := UnpackElements(c, f.ty, r, cur.elems[..n]);
      if ok {
        v := ArrV(elems + cur.elems[n..]);
        SkipSurplus(c.fmt, r, count - n);
      }
    case Dynamic =>
      var good, count := ReadArrayHeader(c.fmt, r);
      if !good { return false, v; }
      ZeroIsTyped(f.ty);
      var elems;
      ok, elems := UnpackElements(c, f.ty, r, Repeat(count, Zero(f.ty)));
      v := ArrV(elems);
    case Map =>
      var good, count := ReadMapHeader(c.fmt, r);
      if !good { return false, v; }
      var entries;
      ok, entries := UnpackMap(c, f.ty, r, count);
      v := MapV(entries);
  }

  method UnpackOne(c: Codec, f: Field, r: Reader, cur: Slot) returns (ok: bool, slot: Slot)
    requires WellFormedField(f) && TypedField(f, cur.val) && r.Valid()
    modifies r`pos
    ensures r.Valid() && ok == UnpackSlot(c, f, old(r.Rest()), cur).Ok?
    ensures ok ==> UnpackSlot(c, f, old(r.Rest()), cur) == Ok(slot, r.Rest())
    decreases f, 2, 0
  {
    hide UnpackField, TypedField, WellFormedField;
    slot := cur;
    var b := r.Peek();
    if f.nullable && b == Nil(c.fmt) {
      r.pos := r.pos + 1;
      return true, Slot(false, cur.val);
    }
    var has := if f.nullable || f.optional then true else cur.has;
    var v;
    ok, v := UnpackInto(c, f, r, cur.val);
    slot := Slot(has, v);
  }

  /** One turn of the loop below: the field is dispatched on the key and written in place. */
  method UnpackEntryInto(c: Codec, fields: seq<Field>, r: Reader, obj: Object) returns (ok: bool)
    requires WellFormedFields(fields) && TypedSlots(fields, obj.slots) && r.Valid()
    modifies r`pos, obj
    ensures r.Valid() && TypedSlots(fields, obj.slots)
    ensures ok == UnpackEntry(c, fields, old(r.Rest()), old(obj.slots)).Ok?
    ensures ok ==> UnpackEntry(c, fields, old(r.Rest()), old(obj.slots)) == Ok(obj.slots, r.Rest())
    decreases fields, 3, 0
  {
    hide UnpackSlot, TypedField, WellFormedField, FindField, Wire.DecStr, Wire.Skip;
    var gotKey, key := ReadStr(c.fmt, r);
    if !gotKey { return false; }
    var i := FindField(fields, key);
    if i >= 0 {
      assert WellFormedField(fields[i]) && TypedField(fields[i], obj.slots[i].val);
      var read, slot := UnpackOne(c, fields[i], r, obj.slots[i]);
      if !read { return false; }
      obj.slots := obj.slots[i := slot];
    } else if fields != [] {
      var skipped := SkipOne(c.fmt, r);
    }
    ok := true;
  }

  method UnpackStruct(c: Codec, fields: seq<Field>, data: bytes, obj: Object) returns (ok: bool)
    requires WellFormedFields(fields) && TypedSlots(fields, obj.slots)
    modifies obj
    ensures TypedSlots(fields, obj.slots)
    ensures ok == UnpackSlots(c, fields, data, old(obj.slots)).Some?
    ensures ok ==> UnpackSlots(c, fields, data, old(obj.slots)) == Some(obj.slots)
    decreases fields, 4, 0
  {
    hide UnpackEntry, UnpackEntries, UnpackSlots, WellFormedFields, TypedSlots, Wire.DecMapHeader;
    var r := new Reader(data);
    SlotsFromHeader(c, fields, data, obj.slots);
    var good, n := ReadMapHeader(c.fmt, r);
    if !good { return false; }
    for k := 0 to n
      invariant r.Valid() && TypedSlots(fields, obj.slots)
      invariant UnpackEntries(c, fields, r.Rest(), n - k, obj.slots) == UnpackSlots(c, fields, data, old(obj.slots))
    {
      EntriesTurn(c, fields, r.Rest(), n - k, obj.slots);
      var read := UnpackEntryInto(c, fields, r, obj);
      if !read { return false; }
    }
    EntriesTurn(c, fields, r.Rest(), 0, obj.slots);
    ok := true;
  }

  lemma {:induction false} SlotsFromHeader(c: Codec, fields: seq<Field>, s: bytes, cur: seq<Slot>)
    requires WellFormedFields(fields) && TypedSlots(fields, cur)
    ensures UnpackSlots(c, fields, s, cur)
            == match DecMapHeader(c.fmt, s)
               case Err => None
               case Ok(n, rest) => UnpackEntries(c, fields, rest, n, cur)
  {
    hide UnpackEntries, WellFormedFields, TypedSlots, Wire.DecMapHeader;
  }

  lemma {:induction false} EntriesTurn(c: Codec, fields: seq<Field>, s: bytes, n: nat, cur: seq<Slot>)
    requires WellFormedFields(fields) && TypedSlots(fields, cur)
    ensures n == 0 ==> UnpackEntries(c, fields, s, n, cur) == Some(cur)
    ensures n > 0 ==>
              UnpackEntries(c, fields, s, n, cur)
              == match UnpackEntry(c, fields, s, cur)
                 case Err => None
                 case Ok(slots, rest) => UnpackEntries(c, fields, rest, n - 1, slots)
  {
    hide UnpackEntry, WellFormedFields, TypedSlots;
  }

  method PackObjects(c: Codec, ty: Type, objs: seq<Value>, out: Buffer)
    requires WellFormed(ty) && (forall e :: e in objs ==> Typed(ty, e)) && out.Valid()
    modifies out.Repr
    ensures out.Valid() && fresh(out.Repr - old(out.Repr))
    ensures out.Contents() == old(out.Contents()) + PackArray(c, ty, objs)
  {
    hide Typed, WellFormed, PackElems, Wire.EncArrayHeader;
    Regroup(out.Contents(), EncArrayHeader(c.fmt, |objs|), PackElems(c, ty, objs));
    WriteArrayHeader(c.fmt, out, |objs|);
    PackElements(c, ty, objs, out);
  }

  method UnpackObjects(c: Codec, ty: Type, data: bytes) returns (ok: bool, objs: seq<Value>)
    requires WellFormed(ty)
    ensures ok == UnpackArray(c, ty, data).Some?
    ensures ok ==> UnpackArray(c, ty, data) == Some(objs)
  {
    hide Typed, WellFormed, UnpackElems, UnpackArray, Init, Wire.DecArrayHeader;
    var r := new Reader(data);
    var good, n := ReadArrayHeader(c.fmt, r);
    if !good {
      ArrayWithoutHeader(c, ty, data);
      return false, [];
    }
    ghost var s := r.Rest();
    FreshObjects(ty, n);
    ArrayAfterHeader(c, ty, data, n, s);
    ok, objs := UnpackElements(c, ty, r, Repeat(n, Init(ty)));
  }

  lemma {:induction false} FreshObjects(ty: Type, n: nat)
    requires WellFormed(ty)
    ensures Typed(ty, Init(ty)) && forall e :: e in Repeat(n, Init(ty)) ==> Typed(ty, e)
  {
    hide Typed, WellFormed, Init;
    InitIsTyped(ty);
  }

  lemma {:induction false} ArrayWithoutHeader(c: Codec, ty: Type, s: bytes)
    requires WellFormed(ty) && DecArrayHeader(c.fmt, s) == Err
    ensures UnpackArray(c, ty, s) == None
  {
    hide Typed, WellFormed, UnpackElems, Init, Wire.DecArrayHeader;
  }

  lemma {:induction false} ArrayAfterHeader(c: Codec, ty: Type, s: bytes, n: nat, rest: bytes)
    requires WellFormed(ty) && DecArrayHeader(c.fmt, s) == Ok(n, rest)
    requires forall e :: e in Repeat(n, Init(ty)) ==> Typed(ty, e)
    ensures UnpackArray(c, ty, s)
            == match UnpackElems(c, ty, rest, Repeat(n, Init(ty)))
               case Err => None
               case Ok(objs, _) => Some(objs)
  {
    hide Typed, WellFormed, UnpackElems, Init, Wire.DecArrayHeader;
    InitIsTyped(ty);
  }

  /**
   What a caller sees: an object packed into a buffer and unpacked from it again, in either format.
   */
  method PackAndUnpack(c: Codec, fields: seq<Field>, obj: Object, out: Buffer, dest: Object) returns (ok: bool)
    requires WellFormedFields(fields) && TypedSlots(fields, obj.slots) && InRangeSlots(c, fields, obj.slots)
    requires TypedSlots(fields, dest.slots) && FreshSlots(fields, dest.slots)
    requires out.Valid() && out.Contents() == [] && dest != obj && dest !in out.Repr && obj !in out.Repr
    modifies out.Repr, dest
    ensures ok && TypedSlots(fields, dest.slots) && obj.slots == old(obj.slots)
    ensures AgreeSlots(fields, dest.slots, obj.slots)
  {
    hide InRangeSlots, TypedSlots, FreshSlots, AgreeSlots, MergeSlots, UnpackSlots, PackSlots, WellFormedFields;
    PackStruct(c, fields, obj.slots, out);
    var data := out.Bytes();
    assert data == PackSlots(c, fields, obj.slots) + [];
    PackThenUnpack(c, fields, obj.slots, [], dest.slots);
    ok := UnpackStruct(c, fields, data, dest);
  }
}
