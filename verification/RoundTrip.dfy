/**
 Reading any encoding of an object, whatever follows it, merges the object into the destination
 and leaves the cursor right behind the encoding, in both formats.
 */
module RoundTrip {
  import opened Bytes
  import opened Wire
  import opened Schema
  import opened Packing
  import opened Unpacking
  import opened Encoding

  lemma {:induction false} FindFieldByIndex(fields: seq<Field>, i: nat)
    requires i < |fields| && WellFormedFields(fields)
    ensures FindField(fields, fields[i].key) == i
  {
    var r := FindField(fields, fields[i].key);
    assert HasKey(fields, fields[i].key);
  }

  lemma {:induction false} IndexOfName(names: seq<bytes>, i: nat)
    requires i < |names| && Distinct(names)
    ensures IndexOf(names, names[i]) == i
  {
    var r := IndexOf(names, names[i]);
    assert names[i] in names;
  }

  /** Reading an encoded value that is no struct and no oneof. */
  lemma {:induction false} UnpackEncodedFlat(c: Codec, ty: Type, v: Value, b: bytes, t: bytes, cur: Value)
    requires Flat(ty) && WellFormed(ty) && Typed(ty, v) && Typed(ty, cur) && EncodesVal(c, ty, v, b)
    ensures UnpackVal(c, ty, b + t, cur) == Ok(v, t) && MergeVal(ty, cur, v) == v
    ensures Skip(c.fmt, b + t) == SkipR(true, t) && !AtNil(c.fmt, b + t)
  {
    hide Wire.EncUint, Wire.EncInt, Wire.EncBool, Wire.EncFloat, Wire.EncDouble, Wire.EncStr, Wire.AtNil, Wire.Skip;
    hide Wire.DecInt64, Wire.DecUint64, Wire.DecNumberAsInt64, Wire.DecNumberAsUint64, Wire.DecDouble, Wire.DecBool;
    hide Wire.DecStr, Wire.LooksLikeInt;
    match ty
    case TInt(bits, signed, fromFloat) =>
      if signed { IntLaw(c.fmt, c.fp, v.i, t); } else { UintLaw(c.fmt, c.fp, v.i, t); }
    case TBool => BoolLaw(c.fmt, v.b, t);
    case TFloat => FloatLaw(c.fmt, c.fp, v.f, t);
    case TDouble => DoubleLaw(c.fmt, c.fp, v.d, t);
    case TStr => StrLaw(c.fmt, v.s, t);
    case TEnum(names) =>
      if b == EncInt(c.fmt, v.i) {
        IntLaw(c.fmt, c.fp, v.i, t);
      } else {
        assert names[v.i] in names;
        StrLaw(c.fmt, names[v.i], t);
        IndexOfName(names, v.i);
      }
  }

  /** Reading an encoded value, and skipping it. */
  lemma {:induction false} UnpackEncoded(c: Codec, ty: Type, v: Value, b: bytes, t: bytes, cur: Value)
    requires WellFormed(ty) && Typed(ty, v) && Typed(ty, cur) && EncodesVal(c, ty, v, b)
    ensures UnpackVal(c, ty, b + t, cur) == Ok(MergeVal(ty, cur, v), t)
    ensures Skip(c.fmt, b + t) == SkipR(true, t) && !AtNil(c.fmt, b + t)
    decreases ty, 0, 0
  {
    hide Wire.Skip, Wire.AtNil, Wire.EncStr;
    hide UnpackSlots, UnpackOneof, MergeSlots, Layout, DocBytes, InitSlots, TypedSlots, WellFormedFields;
    if ty.TStruct? {
      var d :| Layout(c, ty.fields, v.slots, d) && b == DocBytes(c, ty.fields, d);
      UnpackDoc(c, ty.fields, v.slots, d, t, cur.slots);
    } else if ty.TOneof? {
      var fields := ty.variants[v.tag].fields;
      var d :| Layout(c, fields, v.val.slots, d) && b == DocBytes(c, fields, d)
               && Tagged(d, ty.tagKey, EncStr(c.fmt, ty.variants[v.tag].name));
      InitSlotsTyped(fields);
      UnpackTagged(c, ty.tagKey, ty.variants, v.tag, v.val.slots, d, t);
    } else {
      UnpackEncodedFlat(c, ty, v, b, t, cur);
    }
  }

  /** Both passes over an encoded oneof. */
  lemma {:induction false} UnpackTagged(c: Codec, tagKey: bytes, variants: seq<Variant>, tag: nat, slots: seq<Slot>,
                                        d: seq<Piece>, t: bytes)
    requires tag < |variants| && WellFormed(TOneof(tagKey, variants)) && TypedSlots(variants[tag].fields, slots)
    requires Layout(c, variants[tag].fields, slots, d) && Tagged(d, tagKey, EncStr(c.fmt, variants[tag].name))
    requires TypedSlots(variants[tag].fields, InitSlots(variants[tag].fields))
    ensures var fields := variants[tag].fields;
            var s := DocBytes(c, fields, d) + t;
            && UnpackOneof(c, tagKey, variants, s)
               == Some(OneofV(tag, StructV(MergeSlots(fields, InitSlots(fields), slots))))
            && Skip(c.fmt, s) == SkipR(true, t) && !AtNil(c.fmt, s)
    decreases variants, 1, 0
  {
    hide Wire.Skip, Wire.SkipMany, Wire.Item, Wire.AtNil, Wire.EncStr, Wire.DecStr;
    hide Wire.EncMapHeader, Wire.DecMapHeader, Wire.EncArrayHeader, Wire.DecArrayHeader;
    hide UnpackSlots, MergeSlots, FindTag, PiecesBytes;
    var fields := variants[tag].fields;
    var x := PiecesBytes(c, fields, d) + t;
    assert DocBytes(c, fields, d) + t == EncMapHeader(c.fmt, |d|) + x;
    MapHeaderLaw(c.fmt, |d|, x);
    UnpackDoc(c, fields, slots, d, t, InitSlots(fields));
    TagIsFound(c, tagKey, variants, tag, slots, d, t, -1);
  }

  lemma {:induction false} ElemsStep(c: Codec, ty: Type, v: Value, vs: seq<Value>, x: bytes, y: bytes, t: bytes, curs: seq<Value>)
    requires WellFormed(ty) && curs != [] && forall e :: e in curs ==> Typed(ty, e)
    requires UnpackVal(c, ty, x + (y + t), curs[0]) == Ok(v, y + t) && Skip(c.fmt, x + (y + t)) == SkipR(true, y + t)
    requires UnpackElems(c, ty, y + t, curs[1..]) == Ok(vs, t) && SkipMany(c.fmt, y + t, |vs|) == SkipR(true, t)
    ensures UnpackElems(c, ty, x + y + t, curs) == Ok([v] + vs, t)
    ensures SkipMany(c.fmt, x + y + t, 1 + |vs|) == SkipR(true, t)
  {
    hide Wire.Skip, Wire.SkipMany, Wire.Item, Wire.EncStr, Wire.DecStr;
    hide UnpackVal, Typed, WellFormed;
    assert x + y + t == x + (y + t);
    SkipManyStep(c.fmt, x + (y + t), |vs|);
  }

  lemma {:induction false} UnpackEncodedElems(c: Codec, ty: Type, elems: seq<Value>, b: bytes, t: bytes, curs: seq<Value>)
    requires WellFormed(ty) && |curs| == |elems|
    requires (forall e :: e in curs ==> Typed(ty, e)) && (forall e :: e in elems ==> Typed(ty, e))
    requires EncodesElems(c, ty, elems, b)
    ensures UnpackElems(c, ty, b + t, curs) == Ok(MergeElems(ty, curs, elems), t)
    ensures SkipMany(c.fmt, b + t, |elems|) == SkipR(true, t)
    decreases ty, 1, |elems|
  {
    hide Wire.Skip, Wire.SkipMany, Wire.Item, Wire.EncStr, Wire.DecStr;
    hide UnpackVal, MergeVal, EncodesVal, Typed, WellFormed;
    if elems == [] {
      assert [] + t == t;
      SkipManyStep(c.fmt, t, 0);
    } else {
      var x, y :| b == x + y && EncodesVal(c, ty, elems[0], x) && EncodesElems(c, ty, elems[1..], y);
      UnpackEncoded(c, ty, elems[0], x, y + t, curs[0]);
      UnpackEncodedElems(c, ty, elems[1..], y, t, curs[1..]);
      ElemsStep(c, ty, MergeVal(ty, curs[0], elems[0]), MergeElems(ty, curs[1..], elems[1..]), x, y, t, curs);
    }
  }

  /** One entry of a map, followed by bytes `u` that read as the other entries. */
  lemma {:induction false} MapStep(c: Codec, ty: Type, key: bytes, v: Value, es: seq<(bytes, Value)>, x: bytes, u: bytes, t: bytes)
    requires WellFormed(ty) && Flat(ty) && Typed(ty, Zero(ty)) && |key| < TWO_TO_THE_32
    requires UnpackVal(c, ty, x + u, Zero(ty)) == Ok(v, u) && Skip(c.fmt, x + u) == SkipR(true, u)
    requires UnpackMapEntries(c, ty, u, |es|) == Ok(es, t) && SkipMany(c.fmt, u, 2 * |es|) == SkipR(true, t)
    ensures var s := EncStr(c.fmt, key) + (x + u);
            && UnpackMapEntries(c, ty, s, 1 + |es|) == Ok([(key, v)] + es, t)
            && SkipMany(c.fmt, s, 2 * (1 + |es|)) == SkipR(true, t)
  {
    hide Wire.Skip, Wire.SkipMany, Wire.Item, Wire.EncStr, Wire.DecStr;
    hide UnpackVal, Typed, WellFormed, Flat, Zero;
    StrLaw(c.fmt, key, x + u);
    SkipPair(c.fmt, EncStr(c.fmt, key) + (x + u), u, |es|);
  }

  lemma {:induction false} UnpackEncodedMap(c: Codec, ty: Type, entries: seq<(bytes, Value)>, b: bytes, t: bytes)
    requires WellFormed(ty) && Flat(ty)
    requires (forall e :: e in entries ==> Typed(ty, e.1)) && EncodesMapEntries(c, ty, entries, b)
    ensures UnpackMapEntries(c, ty, b + t, |entries|) == Ok(entries, t)
    ensures SkipMany(c.fmt, b + t, 2 * |entries|) == SkipR(true, t)
    decreases ty, 1, |entries|
  {
    hide Wire.Skip, Wire.SkipMany, Wire.Item, Wire.EncStr, Wire.DecStr;
    hide UnpackVal, MergeVal, EncodesVal, Typed, WellFormed, Flat, Zero;
    if entries == [] {
      assert [] + t == t;
      SkipManyStep(c.fmt, t, 0);
    } else {
      var es := entries[1..];
      assert entries == [entries[0]] + es;
      var x, y :| b == EncStr(c.fmt, entries[0].0) + x + y && EncodesVal(c, ty, entries[0].1, x)
                  && EncodesMapEntries(c, ty, es, y);
      ZeroIsTyped(ty);
      UnpackEncodedFlat(c, ty, entries[0].1, x, y + t, Zero(ty));
      UnpackEncodedMap(c, ty, es, y, t);
      MapStep(c, ty, entries[0].0, entries[0].1, es, x, y + t, t);
      RegroupFour(EncStr(c.fmt, entries[0].0), x, y, t);
    }
  }

  lemma {:induction false} UnpackEncodedField(c: Codec, f: Field, v: Value, b: bytes, t: bytes, cur: Value)
    requires WellFormedField(f) && TypedField(f, v) && TypedField(f, cur) && EncodesField(c, f, v, b)
    ensures UnpackField(c, f, b + t, cur) == Ok(MergeField(f, cur, v), t)
    ensures Skip(c.fmt, b + t) == SkipR(true, t) && !AtNil(c.fmt, b + t)
    decreases f, 1, 0
  {
    hide Wire.Skip, Wire.SkipMany, Wire.Item, Wire.AtNil, Wire.EncStr, Wire.DecStr;
    hide Wire.EncMapHeader, Wire.DecMapHeader, Wire.EncArrayHeader, Wire.DecArrayHeader;
    hide UnpackVal, MergeVal, EncodesVal, Typed, UnpackElems, MergeElems, EncodesElems, UnpackMapEntries, EncodesMapEntries;
    match f.shape
    case Single => UnpackEncoded(c, f.ty, v, b, t, cur);
    case Map =>
      var n := |v.entries|;
      var x :| b == EncMapHeader(c.fmt, n) + x && EncodesMapEntries(c, f.ty, v.entries, x);
      assert b + t == EncMapHeader(c.fmt, n) + (x + t);
      MapHeaderLaw(c.fmt, n, x + t);
      UnpackEncodedMap(c, f.ty, v.entries, x, t);
    case Fixed(_) =>
      var n := |v.elems|;
      var x :| b == EncArrayHeader(c.fmt, n) + x && EncodesElems(c, f.ty, v.elems, x);
      assert b + t == EncArrayHeader(c.fmt, n) + (x + t);
      ArrayHeaderLaw(c.fmt, n, x + t);
      UnpackEncodedElems(c, f.ty, v.elems, x, t, cur.elems);
      var merged := MergeElems(f.ty, cur.elems, v.elems);
      assert cur.elems[..n] == cur.elems && merged + cur.elems[n..] == merged;
    case Dynamic =>
      var n := |v.elems|;
      var x :| b == EncArrayHeader(c.fmt, n) + x && EncodesElems(c, f.ty, v.elems, x);
      assert b + t == EncArrayHeader(c.fmt, n) + (x + t);
      ArrayHeaderLaw(c.fmt, n, x + t);
      ZeroIsTyped(f.ty);
      UnpackEncodedElems(c, f.ty, v.elems, x, t, Repeat(n, Zero(f.ty)));
  }

  lemma {:induction false} UnpackEncodedSlot(c: Codec, f: Field, slot: Slot, b: bytes, t: bytes, cur: Slot)
    requires WellFormedField(f) && TypedField(f, slot.val) && TypedField(f, cur.val)
    requires OnWire(f, slot) && EncodesSlot(c, f, slot, b)
    ensures UnpackSlot(c, f, b + t, cur) == Ok(MergeSlot(f, cur, slot), t)
    ensures Skip(c.fmt, b + t) == SkipR(true, t)
    decreases f, 2, 0
  {
    hide Wire.Skip, Wire.AtNil, Wire.EncStr;
    hide UnpackField, MergeField, EncodesField, TypedField;
    if f.nullable && !slot.has {
      NilLaw(c.fmt, t);
      assert (b + t)[1..] == t;
    } else {
      UnpackEncodedField(c, f, slot.val, b, t, cur.val);
    }
  }

  /** One entry of a struct, followed by bytes `u` that read as the other entries. */
  lemma {:induction false} PieceStep(c: Codec, fields: seq<Field>, p: Piece, n: nat, u: bytes, t: bytes, cur: seq<Slot>, next: seq<Slot>,
                  goal: seq<Slot>)
    requires fields != [] && WellFormedFields(fields) && TypedSlots(fields, cur) && TypedSlots(fields, next)
    requires |PieceKey(fields, p)| < TWO_TO_THE_32
    requires Skip(c.fmt, p.body + u) == SkipR(true, u) && SkipMany(c.fmt, u, 2 * n) == SkipR(true, t)
    requires FindField(fields, PieceKey(fields, p)) == if p.Known? then p.i else -1
    requires p.Known? ==>
               && WellFormedField(fields[p.i]) && TypedField(fields[p.i], cur[p.i].val)
               && UnpackSlot(c, fields[p.i], p.body + u, cur[p.i]) == Ok(next[p.i], u)
               && next == cur[p.i := next[p.i]]
    requires p.Unknown? ==> next == cur
    requires UnpackEntries(c, fields, u, n, next) == Some(goal)
    ensures var s := EncStr(c.fmt, PieceKey(fields, p)) + (p.body + u);
            && UnpackEntries(c, fields, s, 1 + n, cur) == Some(goal)
            && SkipMany(c.fmt, s, 2 * (1 + n)) == SkipR(true, t)
  {
    hide Wire.Skip, Wire.SkipMany, Wire.Item, Wire.EncStr, Wire.DecStr;
    hide UnpackSlot, WellFormedField, TypedField, WellFormedFields, TypedSlots, FindField, PieceKey;
    var key := PieceKey(fields, p);
    StrLaw(c.fmt, key, p.body + u);
    SkipPair(c.fmt, EncStr(c.fmt, key) + (p.body + u), u, n);
  }

  lemma {:induction false} RegroupFour(a: bytes, x: bytes, y: bytes, t: bytes)
    ensures a + x + y + t == a + (x + (y + t))
  {
  }

  /** Reading the entries that are left: the fields they are for still hold what they held at the start. */
  lemma {:induction false} UnpackPieces(c: Codec, fields: seq<Field>, slots: seq<Slot>, d: seq<Piece>, t: bytes,
                                        start: seq<Slot>, cur: seq<Slot>)
    requires WellFormedFields(fields) && fields != []
    requires TypedSlots(fields, slots) && TypedSlots(fields, start) && TypedSlots(fields, cur)
    requires PiecesOk(c, fields, slots, d)
    requires forall i :: 0 <= i < |fields| ==>
                           cur[i] == if Pending(d, i) then start[i] else MergeSlots(fields, start, slots)[i]
    ensures UnpackEntries(c, fields, PiecesBytes(c, fields, d) + t, |d|, cur) == Some(MergeSlots(fields, start, slots))
    ensures SkipMany(c.fmt, PiecesBytes(c, fields, d) + t, 2 * |d|) == SkipR(true, t)
    decreases fields, 3, |d|
  {
    hide Wire.Skip, Wire.SkipMany, Wire.Item, Wire.AtNil, Wire.EncStr, Wire.DecStr;
    hide Wire.EncMapHeader, Wire.DecMapHeader, Wire.EncArrayHeader, Wire.DecArrayHeader;
    hide UnpackSlot, MergeSlot, EncodesSlot, WellFormedField, TypedField, FindField;
    var goal := MergeSlots(fields, start, slots);
    if d == [] {
      assert [] + t == t;
      assert cur == goal;
      SkipManyStep(c.fmt, t, 0);
    } else {
      var p := d[0];
      var y := PiecesBytes(c, fields, d[1..]);
      assert PieceOk(c, fields, slots, p);
      KeyIsShort(c, fields, slots, p);
      var next := cur;
      if p.Known? {
        var i := p.i;
        FindFieldByIndex(fields, i);
        assert Pending(d, i) && !Pending(d[1..], i);
        assert WellFormedField(fields[i]) && TypedField(fields[i], slots[i].val) && TypedField(fields[i], cur[i].val);
        UnpackEncodedSlot(c, fields[i], slots[i], p.body, y + t, cur[i]);
        next := cur[i := goal[i]];
      } else {
        assert FindField(fields, p.key) == -1;
        ItemLaw(c.fmt, p.body, y + t);
      }
      PendingAfter(d);
      UnpackPieces(c, fields, slots, d[1..], t, start, next);
      PieceStep(c, fields, p, |d| - 1, y + t, t, cur, next, goal);
      RegroupFour(EncStr(c.fmt, PieceKey(fields, p)), p.body, y, t);
    }
  }

  /** A struct without fields reads `n` keys where there are entries: it gets through exactly when the bodies read as keys. */
  lemma {:induction false} UnpackNoFields(c: Codec, d: seq<Piece>, t: bytes, n: nat)
    requires n <= 2 * |d| && forall p :: p in d ==> p.Unknown? && |p.key| < TWO_TO_THE_32 && Item(c.fmt, p.body)
    ensures UnpackEntries(c, [], PiecesBytes(c, [], d) + t, n, []).Some?
            <==> forall j :: 0 <= j && 2 * j + 1 < n ==> DecStr(c.fmt, d[j].body).Ok?
    ensures UnpackEntries(c, [], PiecesBytes(c, [], d) + t, n, []).Some? ==>
              UnpackEntries(c, [], PiecesBytes(c, [], d) + t, n, []) == Some([])
    decreases |d|
  {
    hide Wire.Skip, Wire.Item, Wire.EncStr, Wire.DecStr;
    if n > 0 {
      var p := d[0];
      var more := PiecesBytes(c, [], d[1..]) + t;
      assert PiecesBytes(c, [], d) + t == EncStr(c.fmt, p.key) + (p.body + more);
      StrLaw(c.fmt, p.key, p.body + more);
      assert d == [p] + d[1..];
      if n > 1 {
        TextItemLaw(c.fmt, p.body, more);
        UnpackNoFields(c, d[1..], t, n - 2);
        EntriesOfNone(c, EncStr(c.fmt, p.key) + (p.body + more), n);
        EntriesOfNone(c, p.body + more, n - 1);
        ShiftBodies(c, d, n);
      } else {
        EntriesOfNone(c, EncStr(c.fmt, p.key) + (p.body + more), n);
      }
    }
  }

  lemma {:induction false} EntriesOfNone(c: Codec, s: bytes, n: nat)
    requires n > 0
    ensures UnpackEntries(c, [], s, n, [])
            == if DecStr(c.fmt, s).Ok? then UnpackEntries(c, [], DecStr(c.fmt, s).rest, n - 1, []) else None
  {
    hide Wire.Skip, Wire.DecStr;
  }

  lemma {:induction false} ShiftBodies(c: Codec, d: seq<Piece>, n: nat)
    requires 2 <= n <= 2 * |d|
    ensures (forall j :: 0 <= j && 2 * j + 1 < n ==> DecStr(c.fmt, d[j].body).Ok?)
            <==> DecStr(c.fmt, d[0].body).Ok? && forall j :: 0 <= j && 2 * j + 1 < n - 2 ==> DecStr(c.fmt, d[1..][j].body).Ok?
  {
    hide Wire.DecStr;
    forall j | 0 <= j && 2 * j + 1 < n - 2 ensures d[1..][j] == d[j + 1] {
    }
    forall j | 0 < j && 2 * j + 1 < n ensures d[j] == d[1..][j - 1] {
    }
  }

  /** Skipping needs no such luck. */
  lemma {:induction false} SkipPieces(c: Codec, d: seq<Piece>, t: bytes)
    requires forall p :: p in d ==> p.Unknown? && |p.key| < TWO_TO_THE_32 && Item(c.fmt, p.body)
    ensures SkipMany(c.fmt, PiecesBytes(c, [], d) + t, 2 * |d|) == SkipR(true, t)
    decreases |d|
  {
    hide Wire.Skip, Wire.SkipMany, Wire.Item, Wire.EncStr, Wire.DecStr;
    if d == [] {
      assert [] + t == t;
      SkipManyStep(c.fmt, t, 0);
    } else {
      var p := d[0];
      var more := PiecesBytes(c, [], d[1..]) + t;
      assert PiecesBytes(c, [], d) + t == EncStr(c.fmt, p.key) + (p.body + more);
      StrLaw(c.fmt, p.key, p.body + more);
      ItemLaw(c.fmt, p.body, more);
      SkipPair(c.fmt, EncStr(c.fmt, p.key) + (p.body + more), more, |d| - 1);
      SkipPieces(c, d[1..], t);
    }
  }

  lemma {:induction false} KeyIsShort(c: Codec, fields: seq<Field>, slots: seq<Slot>, p: Piece)
    requires WellFormedFields(fields) && TypedSlots(fields, slots) && PieceOk(c, fields, slots, p)
    ensures |PieceKey(fields, p)| < TWO_TO_THE_32
  {
    if p.Known? {
      assert WellFormedField(fields[p.i]);
    }
  }

  lemma {:induction false} PendingAfter(d: seq<Piece>)
    requires d != []
    ensures forall i: nat :: Pending(d, i) <==> (d[0].Known? && d[0].i == i) || Pending(d[1..], i)
  {
    forall i: nat | Pending(d, i) && !(d[0].Known? && d[0].i == i) ensures Pending(d[1..], i) {
      var j :| 0 <= j < |d| && d[j].Known? && d[j].i == i;
      assert d[1..][j - 1] == d[j];
    }
  }

  /** A whole struct, read and skipped. */
  lemma {:induction false} UnpackDoc(c: Codec, fields: seq<Field>, slots: seq<Slot>, d: seq<Piece>, t: bytes, cur: seq<Slot>)
    requires WellFormedFields(fields) && TypedSlots(fields, slots) && TypedSlots(fields, cur)
    requires Layout(c, fields, slots, d)
    ensures UnpackSlots(c, fields, DocBytes(c, fields, d) + t, cur) == Some(MergeSlots(fields, cur, slots))
    ensures Skip(c.fmt, DocBytes(c, fields, d) + t) == SkipR(true, t) && !AtNil(c.fmt, DocBytes(c, fields, d) + t)
    decreases fields, 4, 0
  {
    hide Wire.Skip, Wire.SkipMany, Wire.Item, Wire.AtNil, Wire.EncStr, Wire.DecStr;
    hide Wire.EncMapHeader, Wire.DecMapHeader, Wire.EncArrayHeader, Wire.DecArrayHeader;
    var x := PiecesBytes(c, fields, d) + t;
    assert DocBytes(c, fields, d) + t == EncMapHeader(c.fmt, |d|) + x;
    MapHeaderLaw(c.fmt, |d|, x);
    if fields == [] {
      assert forall j :: 0 <= j < |d| ==> PieceOk(c, fields, slots, d[j]);
      UnpackNoFields(c, d, t, |d|);
      SkipPieces(c, d, t);
    } else {
      UnpackPieces(c, fields, slots, d, t, cur, cur);
    }
  }

  /** The first pass finds the tag wherever it stands. */
  lemma {:induction false} TagIsFound(c: Codec, tagKey: bytes, variants: seq<Variant>, tag: nat, slots: seq<Slot>,
                                      d: seq<Piece>, t: bytes, found: int)
    requires tag < |variants| && WellFormed(TOneof(tagKey, variants))
    requires TypedSlots(variants[tag].fields, slots) && PiecesOk(c, variants[tag].fields, slots, d)
    requires found == tag || exists j :: 0 <= j < |d| && d[j].Unknown? && d[j].key == tagKey
    requires forall j :: 0 <= j < |d| && d[j].Unknown? && d[j].key == tagKey ==>
                           d[j].body == EncStr(c.fmt, variants[tag].name)
    ensures FindTag(c.fmt, tagKey, Names(variants), PiecesBytes(c, variants[tag].fields, d) + t, |d|, found) == Some(tag)
    decreases variants, 0, |d|
  {
    hide Wire.Skip, Wire.SkipMany, Wire.Item, Wire.EncStr, Wire.DecStr;
    hide EncodesSlot, IndexOf, UnpackSlot, MergeSlot;
    if d != [] {
      var fields := variants[tag].fields;
      var p := d[0];
      var y := PiecesBytes(c, fields, d[1..]);
      assert PieceOk(c, fields, slots, p);
      KeyIsShort(c, fields, slots, p);
      RegroupFour(EncStr(c.fmt, PieceKey(fields, p)), p.body, y, t);
      StrLaw(c.fmt, PieceKey(fields, p), p.body + (y + t));
      assert forall j :: 1 <= j < |d| ==> d[j] == d[1..][j - 1];
      if PieceKey(fields, p) == tagKey {
        assert p.Unknown?;
        assert Names(variants)[tag] in Names(variants);
        StrLaw(c.fmt, variants[tag].name, y + t);
        IndexOfName(Names(variants), tag);
        TagIsFound(c, tagKey, variants, tag, slots, d[1..], t, tag);
      } else {
        PieceIsSkipped(c, fields, slots, p, y + t);
        TagIsFound(c, tagKey, variants, tag, slots, d[1..], t, found);
      }
    }
  }

  lemma {:induction false} PieceIsSkipped(c: Codec, fields: seq<Field>, slots: seq<Slot>, p: Piece, t: bytes)
    requires WellFormedFields(fields) && TypedSlots(fields, slots) && PieceOk(c, fields, slots, p)
    ensures Skip(c.fmt, p.body + t) == SkipR(true, t)
    decreases fields, 3, 0
  {
    hide Wire.Skip, Wire.SkipMany;
    if p.Known? {
      assert WellFormedField(fields[p.i]) && TypedField(fields[p.i], slots[p.i].val);
      UnpackEncodedSlot(c, fields[p.i], slots[p.i], p.body, t, slots[p.i]);
    } else {
      ItemLaw(c.fmt, p.body, t);
    }
  }
}
