/** The runtime's JSON readers: a cursor over the text, a token buffer, and objects written in place. */
module JsonReader {
  import opened Bytes
  import opened Sstr
  import opened Runtime
  import opened JsonLex
  import opened JsonSkip
  import opened JsonTag
  import opened JsonFields
  import opened JsonReading
  import opened JsonLanding
  import opened JsonExact
  import opened JsonSelect
  import Decimal

  /** An instance of a generated struct. */
  class Instance {
    var slots: seq<Slot>

    constructor (slots: seq<Slot>)
      ensures this.slots == slots
    {
      this.slots := slots;
    }
  }

  /** What a reader reports; where it stands after a fatal result does not matter. */
  ghost predicate Reports<T>(o: Out<T>, code: Code, val: T, rest: bytes) {
    o.code == code && o.val == val && (!Fatal(code) ==> o.rest == rest)
  }

  // ----- Scalars -----

  method UnmarshalScalar(ty: Scalar, r: Reader, cur: Datum, txt: Buffer) returns (code: Code, val: Datum)
    requires r.Valid() && txt.Valid() && txt.HasBuffer() && r !in txt.Repr
    modifies r`pos, txt.Repr
    ensures r.Valid() && txt.Valid() && txt.HasBuffer() && fresh(txt.Repr - old(txt.Repr))
    ensures Out(code, val, r.Rest()) == ReadScalar(ty, old(r.Rest()), cur)
  {
    hide Next, Decimal.ReadInt, NameIndex, CString, IsNumeral;
    var tk := NextToken(r, txt);
    var text := txt.Bytes();
    match ty
    case Integer(bits, signed) =>
      if tk == False { return OKAY, IntV(0); }
      if tk == True { return OKAY, IntV(1); }
      if tk != Kind.Int { return Ret(TokenNumber(tk)), cur; }
      var i := Decimal.ReadInt(bits, signed, text);
      if i == None { return FAILED, cur; }
      return OKAY, IntV(i.value);
    case Float =>
      if tk != Kind.Float && tk != Kind.Int { return Ret(TokenNumber(tk)), cur; }
      if !IsNumeral(text) { return FAILED, cur; }
      return OKAY, FloatV(text);
    case Text =>
      if tk == Null { return OKAY, StrV(None); }
      if tk != String { return Ret(TokenNumber(tk)), StrV(None); }
      return OKAY, StrV(Some(text));
    case Enumeration(names) =>
      if tk == String {
        var i := NameIndex(names, CString(text));
        if i == -1 { return FAILED, cur; }
        return OKAY, IntV(i);
      }
      if tk != Kind.Int { return Ret(TokenNumber(tk)), cur; }
      var i := Decimal.ReadInt(32, true, text);
      if i == None { return FAILED, cur; }
      return OKAY, IntV(i.value);
  }

  // ----- Maps -----

  method UnmarshalMap(ty: Scalar, r: Reader, cur: seq<(bytes, Datum)>, txt: Buffer)
    returns (code: Code, entries: seq<(bytes, Datum)>)
    requires r.Valid() && txt.Valid() && txt.HasBuffer() && r !in txt.Repr
    modifies r`pos, txt.Repr
    ensures r.Valid() && txt.Valid() && txt.HasBuffer() && fresh(txt.Repr - old(txt.Repr))
    ensures Reports(ReadMap(ty, old(r.Rest()), cur), code, entries, r.Rest()) && code.Ret?
  {
    hide Next, ReadScalar;
    entries := cur;
    var tk := NextToken(r, txt);
    if tk == Null { return OKAY, entries; }
    if tk != Punct(OPEN_BRACE) { return FAILED, entries; }
    while true
      invariant r.Valid() && txt.Valid() && txt.HasBuffer() && fresh(txt.Repr - old(txt.Repr)) && r !in txt.Repr
      invariant ReadEntries(ty, r.Rest(), entries) == ReadMap(ty, old(r.Rest()), cur)
      decreases |r.Rest()|
    {
      tk := NextToken(r, txt);
      if tk == Punct(CLOSE_BRACE) { return OKAY, entries; }
      if tk == Punct(COMMA) { continue; }
      if tk != String { return FAILED, entries; }
      var key := txt.Bytes();
      tk := NextToken(r, txt);
      if tk != Punct(COLON) { return FAILED, entries; }
      var val;
      code, val := UnmarshalScalar(ty, r, Unwritten, txt);
      if code.r < 0 { return; }
      entries := entries + [(key, val)];
    }
  }

  method UnmarshalMaps(ty: Scalar, r: Reader, txt: Buffer) returns (code: Code, maps: seq<Datum>)
    requires r.Valid() && txt.Valid() && txt.HasBuffer() && r !in txt.Repr
    modifies r`pos, txt.Repr
    ensures r.Valid() && txt.Valid() && txt.HasBuffer() && fresh(txt.Repr - old(txt.Repr))
    ensures Reports(ReadMaps(ty, old(r.Rest()), []), code, maps, r.Rest())
  {
    hide Next, ReadMap;
    maps := [];
    while true
      invariant r.Valid() && txt.Valid() && txt.HasBuffer() && fresh(txt.Repr - old(txt.Repr)) && r !in txt.Repr
      invariant ReadMaps(ty, r.Rest(), maps) == ReadMaps(ty, old(r.Rest()), [])
      decreases |r.Rest()|
    {
      ghost var s := r.Rest();
      var closed := Peek(Punct(CLOSE_BRACKET), r);
      if closed { return OKAY, maps; }
      var entries;
      code, entries := UnmarshalMap(ty, r, [], txt);
      if code.r < 0 { return; }
      var tk := NextToken(r, txt);
      if tk == Punct(CLOSE_BRACKET) { return OKAY, maps + [MapV(entries)]; }
      if tk != Punct(COMMA) { return FAILED, maps; }
      maps := maps + [MapV(entries)];
    }
  }

  /** Moves over a token of this kind and over nothing else, with a token buffer of its own. */
  method Peek(kind: Kind, r: Reader) returns (there: bool)
    requires r.Valid()
    modifies r`pos
    ensures r.Valid() && there == (Next(old(r.Rest())).kind == kind)
    ensures r.Rest() == if there then Next(old(r.Rest())).rest else old(r.Rest())
  {
    var saved := r.pos;
    var peekTxt := new Buffer();
    var tk := NextToken(r, peekTxt);
    there := tk == kind;
    if !there { r.pos := saved; }
  }

  // ----- Arrays of enums -----

  method UnmarshalEnums(names: seq<bytes>, r: Reader, txt: Buffer) returns (code: Code, elems: seq<Datum>)
    requires r.Valid() && txt.Valid() && txt.HasBuffer() && r !in txt.Repr
    modifies r`pos, txt.Repr
    ensures r.Valid() && txt.Valid() && txt.HasBuffer() && fresh(txt.Repr - old(txt.Repr))
    ensures Out(code, elems, r.Rest()) == ReadEnumArray(names, old(r.Rest()))
  {
    hide Next, ReadScalar;
    elems := [];
    var tk := NextToken(r, txt);
    if tk == Null { return OKAY, []; }
    if tk != Punct(OPEN_BRACKET) { return FAILED, []; }
    while true
      invariant r.Valid() && txt.Valid() && txt.HasBuffer() && fresh(txt.Repr - old(txt.Repr)) && r !in txt.Repr
      invariant ReadEnums(names, r.Rest(), elems) == ReadEnumArray(names, old(r.Rest()))
      decreases |r.Rest()|
    {
      var saved := r.pos;
      ghost var s := r.Rest();
      tk := NextToken(r, txt);
      if tk == Punct(CLOSE_BRACKET) { return OKAY, elems; }
      if tk == Punct(COMMA) { continue; }
      if tk == Eof { return Hang, []; }
      r.pos := saved;
      var e;
      code, e := UnmarshalScalar(Enumeration(names), r, IntV(0), txt);
      if code != OKAY { return code, []; }
      EnumAdvances(names, s);
      elems := elems + [e];
    }
  }

  lemma {:induction false} EnumAdvances(names: seq<bytes>, s: bytes)
    requires ReadScalar(Enumeration(names), s, IntV(0)).code == OKAY && Next(s).kind != Eof
    ensures |Next(s).rest| < |s|
  {
    hide Decimal.ReadInt, NameIndex;
    if Next(s).kind != Error { TokenMoves(s); }
  }

  // ----- Arrays -----

  /** The element loop in its three forms, see `Loop`. */
  method UnmarshalPairs(loop: Loop, it: Item, depth: nat, r: Reader, cur: seq<Datum>, txt: Buffer)
    returns (code: Code, elems: seq<Datum>)
    requires (forall e :: e in cur ==> ShapedItem(it, e)) && r.Valid() && txt.Valid() && txt.HasBuffer() && r !in txt.Repr
    modifies r`pos, txt.Repr
    ensures r.Valid() && txt.Valid() && txt.HasBuffer() && fresh(txt.Repr - old(txt.Repr))
    ensures var o := ReadPairs(loop, it, depth, old(r.Rest()), cur, []);
            Reports(o, code, elems, r.Rest()) && (it.Plain? ==> r.Rest() == o.rest)
    decreases it, 5
  {
    hide Next, ReadElement, ReadPairs, ReadSeparator, ShapedItem, ClearedItem;
    var held, done: seq<Datum> := cur, [];
    while true
      invariant r.Valid() && txt.Valid() && txt.HasBuffer() && fresh(txt.Repr - old(txt.Repr)) && r !in txt.Repr
      invariant (forall e :: e in held ==> ShapedItem(it, e)) && (forall e :: e in done ==> ShapedItem(it, e))
      invariant |r.Rest()| <= |old(r.Rest())|
      invariant ReadPairs(loop, it, depth, r.Rest(), held, done) == ReadPairs(loop, it, depth, old(r.Rest()), cur, [])
      decreases |r.Rest()|
    {
      ghost var s := r.Rest();
      PairsTurn(loop, it, depth, s, held, done);
      if loop == Inline && held == [] { return FAILED, done; }
      ClearedItemIsShaped(it);
      var more := if loop == Inline then held[1..] else [];
      var e;
      code, e := UnmarshalElement(it, depth, r, if loop == Inline then held[0] else ClearedItem(it), txt);
      if code == Hang || code.r < 0 { return code, if loop == Inline then done + [e] + more else done; }
      if code.r == Stop(loop) { return OKAY, if loop == Scalars then done else done + [e] + more; }
      ghost var u := r.Rest();
      SeparatorTurn(loop, it, depth, u, more, done + [e]);
      var tk := NextToken(r, txt);
      done, held := done + [e], more;
      if tk == Punct(CLOSE_BRACKET) { return OKAY, done + held; }
      if tk == Error || tk == Eof { return Broken(loop), done + held; }
    }
  }

  /** One turn of the loop, up to the separator. */
  lemma {:induction false} PairsTurn(loop: Loop, it: Item, depth: nat, s: bytes, held: seq<Datum>, done: seq<Datum>)
    requires (forall e :: e in held ==> ShapedItem(it, e)) && (forall e :: e in done ==> ShapedItem(it, e))
    ensures ShapedItem(it, ClearedItem(it))
    ensures loop == Inline && held == [] ==> ReadPairs(loop, it, depth, s, held, done) == Out(FAILED, done, s)
    ensures !(loop == Inline && held == []) ==>
              var e := ReadElement(it, depth, s, if loop == Inline then held[0] else ClearedItem(it));
              var more := if loop == Inline then held[1..] else [];
              ReadPairs(loop, it, depth, s, held, done)
              == if e.code == Hang || e.code.r < 0 then Out(e.code, if loop == Inline then done + [e.val] + more else done, e.rest)
                 else if e.code.r == Stop(loop) then Out(OKAY, if loop == Scalars then done else done + [e.val] + more, e.rest)
                 else ReadSeparator(loop, it, depth, e.rest, more, done + [e.val])
  {
    hide Next, ReadElement, ReadSeparator, ShapedItem, ClearedItem;
    ClearedItemIsShaped(it);
  }

  lemma {:induction false} SeparatorTurn(loop: Loop, it: Item, depth: nat, s: bytes, held: seq<Datum>, done: seq<Datum>)
    requires (forall e :: e in held ==> ShapedItem(it, e)) && (forall e :: e in done ==> ShapedItem(it, e))
    ensures var l := Next(s);
            ReadSeparator(loop, it, depth, s, held, done)
            == if l.kind == Punct(CLOSE_BRACKET) then Out(OKAY, done + held, l.rest)
               else if l.kind == Error || l.kind == Eof then Out(Broken(loop), done + held, l.rest)
               else ReadPairs(loop, it, depth, l.rest, held, done)
  {
    hide Next, ReadPairs, ShapedItem;
  }

  method UnmarshalElement(it: Item, depth: nat, r: Reader, cur: Datum, txt: Buffer) returns (code: Code, val: Datum)
    requires ShapedItem(it, cur) && r.Valid() && txt.Valid() && txt.HasBuffer() && r !in txt.Repr
    modifies r`pos, txt.Repr
    ensures r.Valid() && txt.Valid() && txt.HasBuffer() && fresh(txt.Repr - old(txt.Repr))
    ensures var o := ReadElement(it, depth, old(r.Rest()), cur);
            Reports(o, code, val, r.Rest()) && (it.Plain? ==> r.Rest() == o.rest)
    decreases it, 4
  {
    hide Next, ReadScalar, ReadStruct, ReadUnion, ShapedSlots, ShapedVariant;
    match it
    case Plain(scalar) => code, val := UnmarshalScalar(scalar, r, cur, txt);
    case Nested(fields) =>
      var sub := new Instance(cur.slots);
      code := UnmarshalStruct(fields, NO_MASK, depth + 1, true, r, sub, txt);
      val := StructV(sub.slots);
    case Union(tagKey, variants) => code, val := UnmarshalUnion(tagKey, variants, depth + 1, r, cur, txt);
    case Map(_) => return FAILED, cur;
  }

  method UnmarshalUnions(tagKey: bytes, variants: seq<Variant>, depth: nat, r: Reader, txt: Buffer)
    returns (code: Code, elems: seq<Datum>)
    requires r.Valid() && txt.Valid() && txt.HasBuffer() && r !in txt.Repr
    modifies r`pos, txt.Repr
    ensures r.Valid() && txt.Valid() && txt.HasBuffer() && fresh(txt.Repr - old(txt.Repr))
    ensures Reports(ReadUnions(tagKey, variants, depth, old(r.Rest()), []), code, elems, r.Rest())
    decreases variants, 5
  {
    hide Next, ReadUnion, ShapedItem, ClearedItem;
    elems := [];
    while true
      invariant r.Valid() && txt.Valid() && txt.HasBuffer() && fresh(txt.Repr - old(txt.Repr)) && r !in txt.Repr
      invariant ReadUnions(tagKey, variants, depth, r.Rest(), elems) == ReadUnions(tagKey, variants, depth, old(r.Rest()), [])
      decreases |r.Rest()|
    {
      ghost var s := r.Rest();
      var there := Peek(Punct(CLOSE_BRACKET), r);
      if there { return OKAY, elems; }
      ClearedItemIsShaped(Union(tagKey, variants));
      var e;
      code, e := UnmarshalUnion(tagKey, variants, depth + 1, r, ClearedItem(Union(tagKey, variants)), txt);
      if code != OKAY { return code, []; }
      var saved := r.pos;
      var tk := NextToken(r, txt);
      if tk == Punct(CLOSE_BRACKET) { return OKAY, elems + [e]; }
      if tk == Error || tk == Eof { return FAILED, []; }
      if tk != Punct(COMMA) { r.pos := saved; }
      elems := elems + [e];
    }
  }

  // ----- Unions -----

  /** Two passes over the same object. */
  method UnmarshalUnion(tagKey: bytes, variants: seq<Variant>, depth: nat, r: Reader, cur: Datum, txt: Buffer)
    returns (code: Code, val: Datum)
    requires ShapedItem(Union(tagKey, variants), cur) && r.Valid() && txt.Valid() && txt.HasBuffer() && r !in txt.Repr
    modifies r`pos, txt.Repr
    ensures r.Valid() && txt.Valid() && txt.HasBuffer() && fresh(txt.Repr - old(txt.Repr))
    ensures Reports(ReadUnion(tagKey, variants, depth, old(r.Rest()), cur), code, val, r.Rest())
    ensures code == OKAY && Next(old(r.Rest())).kind != Eof ==> |r.Rest()| < |old(r.Rest())|
    decreases variants, 4
  {
    hide Next, ReadAsVariant, ShapedVariant, ScanTag, CString, NameIndex;
    var saved := r.pos;
    ghost var s := r.Rest();
    var tk := NextToken(r, txt);
    if tk == Eof { return OKAY, cur; }
    if tk != Punct(OPEN_BRACE) { return FAILED, cur; }
    var found := ScanAndRestore(r, tagKey, txt);
    match found
    case Absent => return FAILED, cur;
    case Hangs => return Hang, cur;
    case Found(text) =>
      var k := NameIndex(VariantNames(variants), CString(text));
      if k < 0 { return FAILED, cur; }
      r.pos := saved;
      ClearedVariantIsShaped(variants[k]);
      var obj := new Instance(if cur.tag == k then cur.variant else ClearedVariant(variants[k]));
      assert r.Rest() == s;
      code := UnmarshalAsVariant(variants[k], depth + 1, r, obj, txt);
      code := if code == Hang then Hang else if code.r < 0 then FAILED else OKAY;
      val := UnionV(k, obj.slots);
  }

  method UnmarshalAsVariant(w: Variant, depth: nat, r: Reader, obj: Instance, txt: Buffer) returns (code: Code)
    requires ShapedVariant(w, obj.slots) && r.Valid() && txt.Valid() && txt.HasBuffer() && r !in txt.Repr && obj !in txt.Repr
    modifies r`pos, obj, txt.Repr
    ensures r.Valid() && txt.Valid() && txt.HasBuffer() && fresh(txt.Repr - old(txt.Repr))
    ensures Reports(ReadAsVariant(w, depth, old(r.Rest()), old(obj.slots)), code, obj.slots, r.Rest())
    decreases w, 4
  {
    hide ReadStruct, ShapedSlots;
    code := UnmarshalStruct(w.fields, NO_MASK, depth, false, r, obj, txt);
  }

  // ----- Structs -----

  method UnmarshalStruct(fields: seq<Field>, mask: Mask, depth: nat, inArray: bool, r: Reader, obj: Instance, txt: Buffer)
    returns (code: Code)
    requires ShapedSlots(fields, obj.slots) && r.Valid() && txt.Valid() && txt.HasBuffer() && r !in txt.Repr && obj !in txt.Repr
    modifies r`pos, obj, txt.Repr
    ensures r.Valid() && txt.Valid() && txt.HasBuffer() && fresh(txt.Repr - old(txt.Repr)) && ShapedSlots(fields, obj.slots)
    ensures Reports(ReadStruct(fields, mask, depth, inArray, old(r.Rest()), old(obj.slots)), code, obj.slots, r.Rest())
    decreases fields, 4
  {
    hide Next, ShapedSlots, ReadMembers;
    if depth > JSON_MAX_DEPTH { return FAILED; }
    var tk := NextToken(r, txt);
    if inArray && tk == Eof { return OKAY; }
    if inArray && tk == Punct(CLOSE_BRACKET) { return Ret(1); }
    if tk != Punct(OPEN_BRACE) { return FAILED; }
    code := UnmarshalMembers(fields, mask, depth, r, obj, txt);
  }

  method UnmarshalMembers(fields: seq<Field>, mask: Mask, depth: nat, r: Reader, obj: Instance, txt: Buffer)
    returns (code: Code)
    requires ShapedSlots(fields, obj.slots) && r.Valid() && txt.Valid() && txt.HasBuffer() && r !in txt.Repr && obj !in txt.Repr
    modifies r`pos, obj, txt.Repr
    ensures r.Valid() && txt.Valid() && txt.HasBuffer() && fresh(txt.Repr - old(txt.Repr)) && ShapedSlots(fields, obj.slots)
    ensures Reports(ReadMembers(fields, mask, depth, old(r.Rest()), old(obj.slots)), code, obj.slots, r.Rest())
    decreases fields, 3
  {
    hide Next, ShapedSlots, ReadMember;
    while true
      invariant r.Valid() && txt.Valid() && txt.HasBuffer() && fresh(txt.Repr - old(txt.Repr)) && r !in txt.Repr && obj !in txt.Repr
      invariant ShapedSlots(fields, obj.slots)
      invariant ReadMembers(fields, mask, depth, r.Rest(), obj.slots) == ReadMembers(fields, mask, depth, old(r.Rest()), old(obj.slots))
      decreases |r.Rest()|
    {
      var tk := NextToken(r, txt);
      if tk == Punct(CLOSE_BRACE) { return OKAY; }
      if tk == Punct(COMMA) {
        var trailing := BraceAhead(r);
        if trailing { return FAILED; }
        continue;
      }
      if tk != String { return FAILED; }
      var key := txt.Bytes();
      tk := NextToken(r, txt);
      if tk != Punct(COLON) { return FAILED; }
      code := UnmarshalMember(fields, mask, depth, key, r, obj, txt);
      if code != OKAY { return; }
    }
  }

  /** A look behind the gap, with a cursor of its own. */
  method BraceAhead(r: Reader) returns (b: bool)
    requires r.Valid()
    ensures b == (SkipGap(r.Rest()) != [] && SkipGap(r.Rest())[0] == CLOSE_BRACE)
  {
    var peek := new Reader(r.data[r.pos..]);
    SkipSpaceComments(peek);
    b := peek.pos < |peek.data| && peek.data[peek.pos] == CLOSE_BRACE;
  }

  method UnmarshalMember(fields: seq<Field>, mask: Mask, depth: nat, key: bytes, r: Reader, obj: Instance, txt: Buffer)
    returns (code: Code)
    requires ShapedSlots(fields, obj.slots) && r.Valid() && txt.Valid() && txt.HasBuffer() && r !in txt.Repr && obj !in txt.Repr
    modifies r`pos, obj, txt.Repr
    ensures r.Valid() && txt.Valid() && txt.HasBuffer() && fresh(txt.Repr - old(txt.Repr)) && ShapedSlots(fields, obj.slots)
    ensures Reports(ReadMember(fields, mask, depth, key, old(r.Rest()), old(obj.slots)), code, obj.slots, r.Rest())
    ensures code == OKAY ==> |r.Rest()| <= |old(r.Rest())|
    decreases fields, 2
  {
    hide Next, ReadField, Selected, FindNested, CString, Count, ShapedField;
    var i := FindField(fields, CString(key));
    if i < 0 || !Selected(mask, fields[i].index) {
      var o := IgnoreValue(r, txt);
      return if o == AtEnd then FAILED else if o == Forever then Hang else OKAY;
    }
    var f := fields[i];
    ClearedFieldIsShaped(f);
    if mask.words.Some? { obj.slots := obj.slots[i := ClearedField(f)]; }
    var isNull := f.nullable;
    if isNull { isNull := Peek(Null, r); }
    if isNull {
      assert obj.slots == old(obj.slots)[i := obj.slots[i]];
      return OKAY;
    }
    var slot;
    code, slot := UnmarshalField(f, FindNested(mask.nested, f.index), depth, r, obj.slots[i], txt);
    assert obj.slots[i := slot] == old(obj.slots)[i := slot];
    obj.slots := obj.slots[i := slot];
  }

  // ----- Fields -----

  method UnmarshalField(f: Field, sub: Mask, depth: nat, r: Reader, cur: Slot, txt: Buffer) returns (code: Code, slot: Slot)
    requires ShapedField(f, cur.val) && r.Valid() && txt.Valid() && txt.HasBuffer() && r !in txt.Repr
    modifies r`pos, txt.Repr
    ensures r.Valid() && txt.Valid() && txt.HasBuffer() && fresh(txt.Repr - old(txt.Repr))
    ensures Reports(ReadField(f, sub, depth, old(r.Rest()), cur), code, slot, r.Rest())
    decreases f, 7
  {
    hide Next, ReadSingle, ReadFixed, ReadDynamic, ShapedItem;
    match f.shape
    case Single =>
      var val;
      code, val := UnmarshalSingle(f.item, sub, depth, r, cur.val, txt);
      slot := Slot(if code == OKAY then cur.has || f.flagged else cur.has, val);
    case Fixed(_) => code, slot := UnmarshalFixed(f, depth, r, cur, txt);
    case Dynamic => code, slot := UnmarshalDynamic(f, depth, r, cur, txt);
  }

  method UnmarshalSingle(it: Item, sub: Mask, depth: nat, r: Reader, cur: Datum, txt: Buffer)
    returns (code: Code, val: Datum)
    requires ShapedItem(it, cur) && r.Valid() && txt.Valid() && txt.HasBuffer() && r !in txt.Repr
    modifies r`pos, txt.Repr
    ensures r.Valid() && txt.Valid() && txt.HasBuffer() && fresh(txt.Repr - old(txt.Repr))
    ensures Reports(ReadSingle(it, sub, depth, old(r.Rest()), cur), code, val, r.Rest())
    decreases it, 6
  {
    hide Next, ReadScalar, ReadStruct, ReadUnion, ReadMap, ShapedSlots, ShapedVariant;
    match it
    case Plain(scalar) => code, val := UnmarshalScalar(scalar, r, cur, txt);
    case Nested(fields) =>
      var obj := new Instance(cur.slots);
      code := UnmarshalStruct(fields, sub, depth + 1, false, r, obj, txt);
      val := StructV(obj.slots);
      if code != FAILED && code != Hang { code := OKAY; }
    case Union(tagKey, variants) => code, val := UnmarshalUnion(tagKey, variants, depth + 1, r, cur, txt);
    case Map(value) =>
      var entries;
      code, entries := UnmarshalMap(value, r, cur.entries, txt);
      val := MapV(entries);
  }

  method UnmarshalFixed(f: Field, depth: nat, r: Reader, cur: Slot, txt: Buffer) returns (code: Code, slot: Slot)
    requires f.shape.Fixed? && ShapedField(f, cur.val) && r.Valid() && txt.Valid() && txt.HasBuffer() && r !in txt.Repr
    modifies r`pos, txt.Repr
    ensures r.Valid() && txt.Valid() && txt.HasBuffer() && fresh(txt.Repr - old(txt.Repr))
    ensures Reports(ReadFixed(f, depth, old(r.Rest()), cur), code, slot, r.Rest())
    decreases f, 6
  {
    hide Next, ReadPairs, ShapedItem;
    if f.item.Map? { return FAILED, cur; }
    var tk := NextToken(r, txt);
    if tk != Punct(OPEN_BRACKET) { return FAILED, cur; }
    var empty := Peek(Punct(CLOSE_BRACKET), r);
    if empty { return OKAY, cur; }
    var elems;
    code, elems := UnmarshalPairs(Inline, f.item, depth, r, cur.val.elems, txt);
    slot := Slot(if code == OKAY then cur.has || f.flagged else cur.has, ArrV(elems));
  }

  method UnmarshalDynamic(f: Field, depth: nat, r: Reader, cur: Slot, txt: Buffer) returns (code: Code, slot: Slot)
    requires f.shape.Dynamic? && cur.val.ArrV? && r.Valid() && txt.Valid() && txt.HasBuffer() && r !in txt.Repr
    modifies r`pos, txt.Repr
    ensures r.Valid() && txt.Valid() && txt.HasBuffer() && fresh(txt.Repr - old(txt.Repr))
    ensures Reports(ReadDynamic(f, depth, old(r.Rest()), cur), code, slot, r.Rest())
    decreases f, 6
  {
    hide Next, ReadArray, ReadEnumArray;
    var elems;
    if f.item.Plain? && f.item.scalar.Enumeration? {
      code, elems := UnmarshalEnums(f.item.scalar.names, r, txt);
      if code == Hang { return Hang, cur; }
      return OKAY, Slot(cur.has || f.flagged, ArrV(elems));
    }
    var tk := NextToken(r, txt);
    if tk == Null && f.item.Union? { return OKAY, Slot(cur.has || f.flagged, ArrV([])); }
    if tk == Null && f.item.Map? { return OKAY, cur; }
    if tk != Punct(OPEN_BRACKET) {
      if f.item.Plain? { return OKAY, Slot(cur.has || f.flagged, ArrV([])); }
      return if f.item.Nested? then PARSE_ERROR else FAILED, cur;
    }
    code, elems := UnmarshalArray(f.item, depth, r, txt);
    if f.item.Plain? && code != Hang { code := OKAY; }
    slot := if code == OKAY then Slot(cur.has || f.flagged, ArrV(elems)) else cur;
  }

  /** Behind the opening bracket. */
  method UnmarshalArray(it: Item, depth: nat, r: Reader, txt: Buffer) returns (code: Code, elems: seq<Datum>)
    requires r.Valid() && txt.Valid() && txt.HasBuffer() && r !in txt.Repr
    modifies r`pos, txt.Repr
    ensures r.Valid() && txt.Valid() && txt.HasBuffer() && fresh(txt.Repr - old(txt.Repr))
    ensures var o := ReadArray(it, depth, old(r.Rest()));
            Reports(o, code, elems, r.Rest()) && (it.Plain? ==> r.Rest() == o.rest)
    decreases it, 6
  {
    hide Next, ReadPairs, ReadUnions, ReadMaps;
    match it
    case Plain(_) => code, elems := UnmarshalPairs(Scalars, it, depth, r, [], txt);
    case Nested(_) =>
      var empty := Peek(Punct(CLOSE_BRACKET), r);
      if empty { return OKAY, []; }
      code, elems := UnmarshalPairs(Structs, it, depth, r, [], txt);
    case Union(tagKey, variants) => code, elems := UnmarshalUnions(tagKey, variants, depth, r, txt);
    case Map(value) => code, elems := UnmarshalMaps(value, r, txt);
  }

  // ----- A whole document -----

  /**
   A caller's selective read. On any text it leaves what is not selected; on a well-formed object that
   names each field once and whose values are read exactly, it succeeds and every selected field that
   is present has what a full read gives.
   */
  method UnmarshalSelected(fields: seq<Field>, mask: Mask, text: bytes, obj: Instance) returns (code: Code)
    requires ShapedSlots(fields, obj.slots) && mask.words.Some?
    modifies obj
    ensures ShapedSlots(fields, obj.slots)
    ensures forall i :: 0 <= i < |fields| && !Selected(mask, fields[i].index) ==> obj.slots[i] == old(obj.slots)[i]
    ensures var s := Next(text).rest;
            && Next(text).kind == Punct(OPEN_BRACE) && Object(s).Some? && NamedOnce(fields, ObjectMembers(s)) && ObjectExact(fields, 0, s)
            ==> && code == OKAY && ShapedSlots(fields, ClearedSlots(fields))
                && forall i :: 0 <= i < |fields| ==>
                     obj.slots[i] == if Selected(mask, fields[i].index) && Present(fields, ObjectMembers(s), i)
                                     then Projected(fields[i], SubMask(mask, fields[i]),
                                                    ReadStruct(fields, NO_MASK, 0, false, text, ClearedSlots(fields)).val[i])
                                     else old(obj.slots)[i]
  {
    hide Next, Selected, ShapedField, NamedOnce, ObjectExact, Members, Object, ObjectMembers, Present, ReadMembers,
      Projected, SubMask;
    var r := new Reader(text);
    var txt := new Buffer();
    code := UnmarshalStruct(fields, mask, 0, false, r, obj, txt);
    ghost var s := Next(text).rest;
    if Next(text).kind == Punct(OPEN_BRACE) {
      forall i | 0 <= i < |fields| && !Selected(mask, fields[i].index) ensures obj.slots[i] == old(obj.slots)[i] {
        UnselectedUntouched(fields, mask, 0, s, old(obj.slots), i);
      }
      if Object(s).Some? && NamedOnce(fields, ObjectMembers(s)) && ObjectExact(fields, 0, s) {
        ClearedIsShaped(fields);
        SelectiveRefinesFull(fields, mask, 0, s, old(obj.slots));
      }
    }
  }
}
