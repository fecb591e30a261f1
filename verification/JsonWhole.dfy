/** A value its reader takes exactly is read with result 0 to its end, whatever the mask and the object. */
module JsonWhole {
  import opened Bytes
  import opened JsonLex
  import opened JsonSkip
  import opened JsonTag
  import opened JsonFields
  import opened JsonReading
  import opened JsonInside
  import opened JsonLanding
  import opened JsonExact
  import Decimal

  /** Result 0, cursor behind the value. */
  predicate Whole<T>(o: Out<T>, r: Option<bytes>) {
    o.code == OKAY && Some(o.rest) == r
  }

  // ----- Members -----

  lemma {:induction false} EmptyIsWhole(fields: seq<Field>, mask: Mask, depth: nat, s: bytes, slots: seq<Slot>)
    requires ShapedSlots(fields, slots) && Next(s).kind == Punct(CLOSE_BRACE)
    ensures ReadMembers(fields, mask, depth, s, slots) == Out(OKAY, slots, Next(s).rest)
  {
    hide Next;
  }

  lemma {:induction false} NoTrailingComma(s: bytes)
    requires Members(s).Some?
    ensures var t := SkipGap(s); !(t != [] && t[0] == CLOSE_BRACE)
  {
    assert Next(s).kind == String;
  }

  lemma {:induction false} ObjectIsWhole(fields: seq<Field>, mask: Mask, depth: nat, s: bytes, slots: seq<Slot>)
    requires ShapedSlots(fields, slots) && Object(s).Some? && ObjectExact(fields, depth, s)
    ensures Whole(ReadMembers(fields, mask, depth, s, slots), Object(s))
    decreases |s|, 3
  {
    hide Next, ReadMembers, MembersExact, Members, ShapedSlots;
    if Next(s).kind == Punct(CLOSE_BRACE) {
      EmptyIsWhole(fields, mask, depth, s, slots);
    } else {
      MembersAreWhole(fields, mask, depth, s, slots);
    }
  }

  lemma {:induction false} MembersAreWhole(fields: seq<Field>, mask: Mask, depth: nat, s: bytes, slots: seq<Slot>)
    requires ShapedSlots(fields, slots) && Members(s).Some? && MembersExact(fields, depth, s)
    ensures Whole(ReadMembers(fields, mask, depth, s, slots), Members(s))
    decreases |s|, 2
  {
    hide Next, FieldExact, ReadMember, Value, ShapedSlots;
    var v := MemberValue(s).value;
    var t := Value(v).value;
    MemberIsWhole(fields, mask, depth, Next(s).text, v, slots);
    var o := ReadMember(fields, mask, depth, Next(s).text, v, slots);
    if Next(t).kind == Punct(COMMA) {
      NoTrailingComma(Next(t).rest);
      MembersAreWhole(fields, mask, depth, Next(t).rest, o.val);
    }
  }

  lemma {:induction false} MemberIsWhole(fields: seq<Field>, mask: Mask, depth: nat, key: bytes, v: bytes, slots: seq<Slot>)
    requires ShapedSlots(fields, slots) && Value(v).Some?
    requires var i := FindField(fields, CString(key)); i >= 0 && Selected(mask, fields[i].index) ==> FieldExact(fields[i], depth, v)
    ensures Whole(ReadMember(fields, mask, depth, key, v, slots), Value(v))
    decreases |v|, 10
  {
    hide Next, FieldExact, ReadField, Elements, Members, Count, ShapedField, Selected, FindNested, ClearedField;
    var i := FindField(fields, CString(key));
    if i < 0 || !Selected(mask, fields[i].index) {
      CountersFollowGrammar(v);
    } else {
      var f := fields[i];
      ClearedFieldIsShaped(f);
      if f.nullable && Next(v).kind == Null {
        TextIsWhole(v);
      } else {
        FieldIsWhole(f, FindNested(mask.nested, f.index), depth, v, if mask.words.Some? then ClearedField(f) else slots[i]);
      }
    }
  }

  lemma {:induction false} StructIsWhole(fields: seq<Field>, mask: Mask, depth: nat, inArray: bool, v: bytes,
        slots: seq<Slot>)
    requires ShapedSlots(fields, slots) && Value(v).Some? && StructExact(fields, depth, v)
    ensures Whole(ReadStruct(fields, mask, depth, inArray, v, slots), Value(v))
    decreases |v|, 4
  {
    hide Next, ReadMembers, ObjectExact, Members, ShapedSlots;
    ObjectIsWhole(fields, mask, depth, Next(v).rest, slots);
  }

  // ----- Unions -----

  /** A union's reader is the reader of the variant its tag names. */
  lemma {:induction false} UnionAsStruct(tagKey: bytes, variants: seq<Variant>, depth: nat, v: bytes, cur: Datum)
    returns (k: int, slots: seq<Slot>)
    requires ShapedItem(Union(tagKey, variants), cur) && Value(v).Some? && Next(v).kind == Punct(OPEN_BRACE)
    ensures k == TaggedVariant(tagKey, variants, Next(v).rest)
    ensures k < 0 ==> Fatal(ReadUnion(tagKey, variants, depth, v, cur).code)
    ensures k >= 0 ==>
              && ShapedSlots(variants[k].fields, slots)
              && var o := ReadUnion(tagKey, variants, depth, v, cur);
                 var e := ReadStruct(variants[k].fields, NO_MASK, depth + 1, false, v, slots);
                 o.rest == e.rest && o.code == if e.code == Hang then Hang else if e.code.r < 0 then FAILED else OKAY
  {
    hide Next, ReadStruct, ShapedSlots, ScanTag, FirstTag, ObjectMembers, Elements, Members;
    var s := Next(v).rest;
    ScanSeesOwnMembers(ByCounters, s, tagKey);
    k := TaggedVariant(tagKey, variants, s);
    slots := [];
    if k >= 0 {
      ClearedVariantIsShaped(variants[k]);
      slots := if cur.tag == k then cur.variant else ClearedVariant(variants[k]);
      assert ReadUnion(tagKey, variants, depth, v, cur) == ReadVariant(variants, k, depth, v, cur);
      var e := ReadStruct(variants[k].fields, NO_MASK, depth + 1, false, v, slots);
      assert ReadAsVariant(variants[k], depth + 1, v, slots) == e;
    } else {
      assert Fatal(ReadUnion(tagKey, variants, depth, v, cur).code);
    }
  }

  lemma {:induction false} UnionIsWhole(tagKey: bytes, variants: seq<Variant>, depth: nat, v: bytes, cur: Datum)
    requires ShapedItem(Union(tagKey, variants), cur) && Value(v).Some? && UnionExact(tagKey, variants, depth, v)
    ensures Whole(ReadUnion(tagKey, variants, depth, v, cur), Value(v))
    decreases |v|, 5
  {
    hide Next, ReadUnion, ReadStruct, StructExact, TaggedVariant, ShapedItem, ShapedSlots, Elements, Members;
    var k, slots := UnionAsStruct(tagKey, variants, depth, v, cur);
    StructIsWhole(variants[k].fields, NO_MASK, depth + 1, false, v, slots);
  }

  // ----- Objects left behind one of their members -----

  /** A result that is no error to who goes on. */
  predicate Accepts(taker: Taker, c: Code) {
    match taker
    case Array => c.Ret? && c.r >= 0 && c.r != 1
    case Struct(_, _) => !Fatal(c)
    case Variants(_, _) => c.Ret? && c.r >= 0
  }

  lemma {:induction false} LeftIsLeft(fields: seq<Field>, depth: nat, s: bytes, slots: seq<Slot>, taker: Taker)
    requires ShapedSlots(fields, slots) && Members(s).Some? && Left(fields, depth, s, taker)
    ensures var o := ReadMembers(fields, NO_MASK, depth, s, slots);
            Accepts(taker, o.code) && GoesOn(taker, o.rest) && Run(ANY, Place(Behind, [Braced]), o.rest) == Members(s)
    decreases |s|, 2
  {
    hide Next, FieldExact, LeftBehind, ReadMember, Value, ShapedSlots, Run, GoesOn;
    MembersAreNamed(First, s);
    var v, t := FirstMember(ANY, s);
    var key := Next(s).text;
    var i := FindField(fields, CString(key));
    var o := ReadMember(fields, NO_MASK, depth, key, v, slots);
    if i >= 0 && LeftBehind(fields, fields[i], depth, v, taker) && GoesOn(taker, t) {
      MemberIsLeft(fields, depth, key, v, slots, taker);
    } else {
      MemberIsWhole(fields, NO_MASK, depth, key, v, slots);
      NoTrailingComma(Next(t).rest);
      LeftIsLeft(fields, depth, Next(t).rest, o.val, taker);
    }
  }

  /** The member ends the loop, or the loop ends at the brace of the member's value. */
  lemma {:induction false} MemberIsLeft(fields: seq<Field>, depth: nat, key: bytes, v: bytes, slots: seq<Slot>,
        taker: Taker)
    requires ShapedSlots(fields, slots) && Value(v).Some?
    requires var i := FindField(fields, CString(key)); i >= 0 && LeftBehind(fields, fields[i], depth, v, taker)
    ensures var o := ReadMember(fields, NO_MASK, depth, key, v, slots);
            if o.code == OKAY then Whole(ReadMembers(fields, NO_MASK, depth, o.rest, o.val), Value(v))
            else Accepts(taker, o.code) && Some(o.rest) == Value(v)
    decreases |v|, 4
  {
    hide Next, OtherKind, LeftInside, ReadField, ReadMembers, Elements, Members, ShapedField;
    var i := FindField(fields, CString(key));
    var f := fields[i];
    var cur := slots[i];
    assert ShapedField(f, cur.val) && FindNested(NO_MASK.nested, f.index) == NO_MASK;
    if OtherKind(f, v, taker) {
      OtherIsPassedUp(f, depth, v, cur, taker);
    } else {
      var o := ReadField(f, NO_MASK, depth, v, cur);
      InsideIsLeft(fields, f, depth, v, cur, slots[i := o.val]);
    }
  }

  lemma {:induction false} OtherIsPassedUp(f: Field, depth: nat, v: bytes, cur: Slot, taker: Taker)
    requires ShapedField(f, cur.val) && Value(v).Some? && OtherKind(f, v, taker)
    ensures var o := ReadField(f, NO_MASK, depth, v, cur);
            o.code != OKAY && Accepts(taker, o.code) && Some(o.rest) == Value(v)
  {
    hide Next, ReadScalar, ReadArray, ScalarFits, Refused, Elements, Members;
    TextIsWhole(v);
    if f.shape.Single? {
      ScalarOutcome(f.item.scalar, v, cur.val);
      StringsAreOne(f.item.scalar, v, cur.val);
    }
  }

  lemma {:induction false} StringsAreOne(ty: Scalar, v: bytes, cur: Datum)
    ensures ReadScalar(ty, v, cur).code == Ret(1) <==> Next(v).kind == String && !ScalarFits(ty, v) && !Refused(ty, v)
  {
    hide Next, Decimal.ReadInt, IsNumeral;
    PunctuationOnly(v);
    if ty.Enumeration? { NameIsFound(ty.names, CString(Next(v).text)); }
  }

  lemma {:induction false} InsideIsLeft(fields: seq<Field>, f: Field, depth: nat, v: bytes, cur: Slot, slots: seq<Slot>)
    requires ShapedField(f, cur.val) && ShapedSlots(fields, slots)
    requires Value(v).Some? && Next(v).kind == Punct(OPEN_BRACE) && LeftInside(fields, f, depth, Next(v).rest)
    ensures var o := ReadField(f, NO_MASK, depth, v, cur);
            o.code == OKAY && Whole(ReadMembers(fields, NO_MASK, depth, o.rest, slots), Value(v))
    decreases |v|, 3
  {
    hide Next, ReadScalar, ReadMembers, ReadEntries, ReadUnion, ReadPairs, ReadEnums, Left, EntriesLeft, ObjectExact,
      GoesOn,
      TaggedVariant, ShapedSlots, ShapedVariant, Elements, Members, Run;
    var s := Next(v).rest;
    MembersAreObject(v);
    match f.item
    case Plain(_) => ObjectIsWhole(fields, NO_MASK, depth, s, slots);
    case Nested(inner) =>
      LeftIsLeft(inner, depth + 1, s, cur.val.slots, Struct(fields, depth));
      var o := ReadMembers(inner, NO_MASK, depth + 1, s, cur.val.slots);
      TailIsWhole(Struct(fields, depth), o.rest, Members(s).value, slots);
      assert ReadStruct(inner, NO_MASK, depth + 1, false, v, cur.val.slots) == o;
      assert ReadSingle(f.item, NO_MASK, depth, v, cur.val).rest == o.rest;
    case Union(tagKey, variants) =>
      UnionIsLeft(fields, tagKey, variants, depth, v, cur.val);
      TailIsWhole(Variants(fields, depth), ReadUnion(tagKey, variants, depth + 1, v, cur.val).rest, Members(s).value, slots);
    case Map(value) =>
      EntriesAreLeft(value, s, cur.val.entries, Struct(fields, depth));
      TailIsWhole(Struct(fields, depth), ReadEntries(value, s, cur.val.entries).rest, Members(s).value, slots);
  }

  lemma {:induction false} MembersAreObject(v: bytes)
    requires Next(v).kind == Punct(OPEN_BRACE)
    ensures Members(Next(v).rest).Some? ==> Value(v) == Members(Next(v).rest)
  {
    hide Next;
  }

  lemma {:induction false} UnionIsLeft(fields: seq<Field>, tagKey: bytes, variants: seq<Variant>, depth: nat, v: bytes,
        cur: Datum)
    requires ShapedItem(Union(tagKey, variants), cur) && Value(v).Some? && Next(v).kind == Punct(OPEN_BRACE)
    requires var s := Next(v).rest; var k := TaggedVariant(tagKey, variants, s);
             && k >= 0 && depth + 2 <= JSON_MAX_DEPTH && Members(s).Some?
             && Left(variants[k].fields, depth + 2, s, Variants(fields, depth))
    ensures var o := ReadUnion(tagKey, variants, depth + 1, v, cur); var taker := Variants(fields, depth);
            o.code == OKAY && GoesOn(taker, o.rest) && Run(ANY, Place(Behind, [Braced]), o.rest) == Members(Next(v).rest)
    decreases |v|, 2
  {
    hide Next, ReadUnion, ReadMembers, Left, GoesOn, TaggedVariant, ShapedItem, ShapedSlots, Elements, Members, Run;
    var k, slots := UnionAsStruct(tagKey, variants, depth + 1, v, cur);
    LeftIsLeft(variants[k].fields, depth + 2, Next(v).rest, slots, Variants(fields, depth));
  }

  /** What is left suits the members around it. */
  lemma {:induction false} TailIsWhole(taker: Taker, u: bytes, r: bytes, slots: seq<Slot>)
    requires !taker.Array? && ShapedSlots(taker.fields, slots)
    requires GoesOn(taker, u) && Run(ANY, Place(Behind, [Braced]), u) == Some(r)
    ensures Whole(ReadMembers(taker.fields, NO_MASK, taker.depth, u, slots), Some(r))
    decreases |u|, 3
  {
    hide Next, ReadMember, MembersExact, ShapedSlots, Run;
    if Next(u).kind == Punct(CLOSE_BRACE) {
      RunOverCloser(ANY, Behind, Braced, u);
    } else {
      var s := Next(u).rest;
      NoTrailingComma(s);
      MembersAreNamed(Item, s);
      OverComma(ANY, Place(Behind, [Braced]), u);
      MembersAreWhole(taker.fields, NO_MASK, taker.depth, s, slots);
    }
  }

  lemma {:induction false} OverComma(names: Names, p: Place, u: bytes)
    requires Run(names, p, u).Some? && p.open != [] && Next(u).kind == Punct(COMMA)
    ensures Run(names, p, u) == Run(names, Place(Item, p.open), Next(u).rest)
  {
    hide Next, Allowed;
  }

  lemma {:induction false} EntriesAreLeft(ty: Scalar, s: bytes, done: seq<(bytes, Datum)>, taker: Taker)
    requires Members(s).Some? && EntriesLeft(ty, s, taker)
    ensures var o := ReadEntries(ty, s, done);
            o.code == OKAY && GoesOn(taker, o.rest) && Run(ANY, Place(Behind, [Braced]), o.rest) == Members(s)
    decreases |s|
  {
    hide Next, ReadScalar, Value, Refused, GoesOn, MapExact, NamedValue, Run;
    MembersAreNamed(First, s);
    var v, t := FirstMember(ANY, s);
    ScalarOutcome(ty, v, Unwritten);
    ScalarCodes(ty, v, Unwritten);
    var e := ReadScalar(ty, v, Unwritten);
    var all := done + [(Next(s).text, e.val)];
    if Next(v).kind == Punct(OPEN_BRACE) && MapExact(ty, v) && GoesOn(taker, t) {
      MapIff(ty, v, all);
      assert ReadMap(ty, v, all) == ReadEntries(ty, e.rest, all);
    } else {
      TextIsWhole(v);
      EntriesAreLeft(ty, Next(t).rest, all, taker);
      assert ReadEntries(ty, t, all) == ReadEntries(ty, Next(t).rest, all);
    }
  }

  // ----- Arrays -----

  /** Which loop an array of structs is read by. */
  function StructLoop(room: Option<nat>): Loop {
    if room.Some? then Inline else Structs
  }

  lemma {:induction false} StructsAreWhole(it: Item, depth: nat, room: Option<nat>, s: bytes, held: seq<Datum>,
        done: seq<Datum>)
    requires it.Nested? && Elements(s).Some? && StructsExact(it.fields, depth + 1, room, s)
    requires (room.Some? ==> |held| == room.value)
    requires (forall e :: e in held ==> ShapedItem(it, e)) && (forall e :: e in done ==> ShapedItem(it, e))
    ensures Whole(ReadPairs(StructLoop(room), it, depth, s, held, done), Elements(s))
    decreases |s|, 7
  {
    hide Next, ReadMembers, StructExact, LeftAtBrace, Value, ShapedSlots;
    ClearedItemIsShaped(it);
    var loop := StructLoop(room);
    var cur := if loop == Inline then held[0] else ClearedItem(it);
    var more := if loop == Inline then held[1..] else [];
    var e := ReadElement(it, depth, s, cur);
    var t := Value(s).value;
    if StructExact(it.fields, depth + 1, s) {
      StructIsWhole(it.fields, NO_MASK, depth + 1, true, s, cur.slots);
      if Next(t).kind == Punct(COMMA) {
        StructsAreWhole(it, depth, Less(room), Next(t).rest, more, done + [e.val]);
      }
    } else {
      StopsWhereLeft(it.fields, depth + 1, s);
      BraceThenBracket(it, depth, s, done);
    }
  }

  /** An element whose reader stops right before its closing brace, with a result that is no error to the loop. */
  predicate StopsAtBrace(fields: seq<Field>, depth: nat, v: bytes)
    requires Value(v).Some?
  {
    ClearedIsShaped(fields);
    var o := ReadStruct(fields, NO_MASK, depth, true, v, ClearedSlots(fields));
    Accepts(Array, o.code) && Next(o.rest).kind == Punct(CLOSE_BRACE) && Next(o.rest).rest == Value(v).value
  }

  lemma {:induction false} StopsWhereLeft(fields: seq<Field>, depth: nat, v: bytes)
    requires Value(v).Some? && LeftAtBrace(fields, depth, v)
    ensures StopsAtBrace(fields, depth, v)
    decreases |v|, 6
  {
    hide Next, ReadMembers, Members, Elements, Left;
    ClearedIsShaped(fields);
    MembersAreObject(v);
    LeftIsLeft(fields, depth, Next(v).rest, ClearedSlots(fields), Array);
    var u := ReadMembers(fields, NO_MASK, depth, Next(v).rest, ClearedSlots(fields)).rest;
    assert Next(u).kind == Punct(CLOSE_BRACE);
    RunOverCloser(ANY, Behind, Braced, u);
  }

  /** Left before its closing brace, the last element takes the brace for a separator and the bracket for the end. */
  lemma {:induction false} BraceThenBracket(it: Item, depth: nat, s: bytes, done: seq<Datum>)
    requires it.Nested? && Value(s).Some? && Next(Value(s).value).kind == Punct(CLOSE_BRACKET)
    requires StopsAtBrace(it.fields, depth + 1, s)
    requires forall e :: e in done ==> ShapedItem(it, e)
    ensures var o := ReadPairs(Structs, it, depth, s, [], done);
            o.code == OKAY && o.rest == Next(Value(s).value).rest
  {
    hide Next, ReadMembers, Value, ShapedSlots;
    ClearedItemIsShaped(it);
    var e := ReadElement(it, depth, s, ClearedItem(it));
    var t := Value(s).value;
    BracketIsLast(it, depth, t, done + [e.val]);
    assert ReadSeparator(Structs, it, depth, e.rest, [], done + [e.val]) == ReadPairs(Structs, it, depth, t, [], done + [e.val]);
  }

  lemma {:induction false} BracketIsLast(it: Item, depth: nat, s: bytes, done: seq<Datum>)
    requires it.Nested? && Next(s).kind == Punct(CLOSE_BRACKET) && depth < JSON_MAX_DEPTH
    requires forall e :: e in done ==> ShapedItem(it, e)
    ensures ReadPairs(Structs, it, depth, s, [], done) == Out(OKAY, done + [ClearedItem(it)], Next(s).rest)
  {
    hide Next, ReadSeparator, ReadMembers, ShapedSlots;
    ClearedItemIsShaped(it);
    var o := ReadStruct(it.fields, NO_MASK, depth + 1, true, s, ClearedItem(it).slots);
    assert o == Out(Ret(1), ClearedItem(it).slots, Next(s).rest);
    assert ReadElement(it, depth, s, ClearedItem(it)) == Out(Ret(1), ClearedItem(it), Next(s).rest);
    assert done + [ClearedItem(it)] + [] == done + [ClearedItem(it)];
  }

  lemma {:induction false} UnionsAreWhole(tagKey: bytes, variants: seq<Variant>, depth: nat, s: bytes, done: seq<Datum>)
    requires Elements(s).Some? && UnionsExact(tagKey, variants, depth + 1, None, s)
    ensures Whole(ReadUnions(tagKey, variants, depth, s, done), Elements(s))
    decreases |s|, 7
  {
    hide Next, ReadUnion, UnionExact, Value, ShapedItem;
    var it := Union(tagKey, variants);
    ClearedItemIsShaped(it);
    UnionIsWhole(tagKey, variants, depth + 1, s, ClearedItem(it));
    ValueStarts(s);
    var e := ReadUnion(tagKey, variants, depth + 1, s, ClearedItem(it));
    var t := Value(s).value;
    if Next(t).kind == Punct(COMMA) { UnionsAreWhole(tagKey, variants, depth, Next(t).rest, done + [e.val]); }
  }

  lemma {:induction false} InlineUnionsAreWhole(it: Item, depth: nat, s: bytes, held: seq<Datum>, done: seq<Datum>)
    requires it.Union? && Elements(s).Some? && UnionsExact(it.tagKey, it.variants, depth + 1, Some(|held|), s)
    requires (forall e :: e in held ==> ShapedItem(it, e)) && (forall e :: e in done ==> ShapedItem(it, e))
    ensures Whole(ReadPairs(Inline, it, depth, s, held, done), Elements(s))
    decreases |s|, 7
  {
    hide Next, ReadUnion, UnionExact, Value, ShapedItem;
    UnionIsWhole(it.tagKey, it.variants, depth + 1, s, held[0]);
    var e := ReadElement(it, depth, s, held[0]);
    var t := Value(s).value;
    if Next(t).kind == Punct(COMMA) { InlineUnionsAreWhole(it, depth, Next(t).rest, held[1..], done + [e.val]); }
  }

  // ----- Fields -----

  lemma {:induction false} FieldIsWhole(f: Field, sub: Mask, depth: nat, v: bytes, cur: Slot)
    requires ShapedField(f, cur.val) && Value(v).Some? && FieldExact(f, depth, v) && !(f.nullable && Next(v).kind == Null)
    ensures Whole(ReadField(f, sub, depth, v, cur), Value(v))
    decreases |v|, 9
  {
    hide Next, ReadSingle, ReadFixed, ReadDynamic, FieldExact, ShapedItem, Elements, Members;
    match f.shape
    case Single => SingleIsWhole(f, sub, depth, v, cur.val);
    case Fixed(_) => FixedIsWhole(f, depth, v, cur);
    case Dynamic => DynamicIsWhole(f, depth, v, cur);
  }

  lemma {:induction false} SingleIsWhole(f: Field, sub: Mask, depth: nat, v: bytes, cur: Datum)
    requires f.shape.Single? && ShapedItem(f.item, cur)
    requires Value(v).Some? && FieldExact(f, depth, v) && !(f.nullable && Next(v).kind == Null)
    ensures Whole(ReadSingle(f.item, sub, depth, v, cur), Value(v))
    decreases |v|, 8
  {
    hide Next, ReadScalar, ReadStruct, ReadUnion, ReadMap, ScalarFits, StructExact, UnionExact, MapExact,
      ShapedSlots, ShapedVariant, Elements, Members;
    match f.item
    case Plain(scalar) =>
      ValueStarts(v);
      FitsOneToken(scalar, v);
      TextIsWhole(v);
      ScalarOutcome(scalar, v, cur);
    case Nested(fields) => StructIsWhole(fields, sub, depth + 1, false, v, cur.slots);
    case Union(tagKey, variants) => UnionIsWhole(tagKey, variants, depth + 1, v, cur);
    case Map(value) => MapIff(value, v, cur.entries);
  }

  lemma {:induction false} FixedIsWhole(f: Field, depth: nat, v: bytes, cur: Slot)
    requires f.shape.Fixed? && ShapedField(f, cur.val)
    requires Value(v).Some? && FieldExact(f, depth, v) && !(f.nullable && Next(v).kind == Null)
    ensures Whole(ReadFixed(f, depth, v, cur), Value(v))
    decreases |v|, 8
  {
    hide Next, ReadPairs, Steady, StructsExact, UnionsExact, ShapedItem, Value, Run;
    ValueIsNamed(v);
    BehindBracket(ANY, v);
    var s := Next(v).rest;
    if Next(s).kind != Punct(CLOSE_BRACKET) {
      var held := cur.val.elems;
      match f.item
      case Plain(_) => PairsIff(Some(f.shape.size), f.item, depth, Place(First, [Bracketed]), s, held, [], Value(v).value);
      case Nested(_) => StructsAreWhole(f.item, depth, Some(f.shape.size), s, held, []);
      case Union(_, _) => InlineUnionsAreWhole(f.item, depth, s, held, []);
    }
  }

  lemma {:induction false} DynamicIsWhole(f: Field, depth: nat, v: bytes, cur: Slot)
    requires f.shape.Dynamic? && cur.val.ArrV?
    requires Value(v).Some? && FieldExact(f, depth, v) && !(f.nullable && Next(v).kind == Null)
    ensures Whole(ReadDynamic(f, depth, v, cur), Value(v))
    decreases |v|, 8
  {
    hide Next, ReadPairs, ReadUnions, ReadMaps, ReadEnumArray, StructsExact, UnionsExact, MapsExact, ShapedItem,
      Value, Run, Steady, EnumsExact;
    if f.item.Plain? {
      ScalarArrayIff(f.item, depth, v);
    } else if Next(v).kind == Null {
      TextIsWhole(v);
    } else {
    ValueIsNamed(v);
    BehindBracket(ANY, v);
      var s := Next(v).rest;
      var empty := Next(s).kind == Punct(CLOSE_BRACKET);
      match f.item
      case Nested(_) => if !empty { StructsAreWhole(f.item, depth, None, s, [], []); }
      case Union(tagKey, variants) =>
        if empty { EmptyArrays(tagKey, variants, Scalar.Float, depth, s); } else { UnionsAreWhole(tagKey, variants, depth, s, []); }
      case Map(value) => if !empty { MapsIff(value, s, []); } else { EmptyArrays([], [], value, depth, s); }
    }
  }

  lemma {:induction false} TextIsWhole(v: bytes)
    requires Value(v).Some? && HasText(Next(v).kind)
    ensures Value(v) == Some(Next(v).rest)
  {
    hide Next, Elements, Members;
  }

  lemma {:induction false} EmptyArrays(tagKey: bytes, variants: seq<Variant>, ty: Scalar, depth: nat, s: bytes)
    requires Next(s).kind == Punct(CLOSE_BRACKET)
    ensures ReadUnions(tagKey, variants, depth, s, []) == Out(OKAY, [], Next(s).rest)
    ensures ReadMaps(ty, s, []) == Out(OKAY, [], Next(s).rest)
  {
    hide Next;
  }

  /** The reader of a dynamic array of scalars ends behind the value or inside it; its result does not count. */
  lemma {:induction false} ScalarArrayIff(it: Item, depth: nat, v: bytes)
    requires it.Plain? && Value(v).Some?
    ensures var s := Next(v).rest;
            var rest := if it.scalar.Enumeration? then ReadEnumArray(it.scalar.names, v).rest
                        else if Next(v).kind != Punct(OPEN_BRACKET) then s else ReadPairs(Scalars, it, depth, s, [], []).rest;
            rest == Value(v).value <==>
              || HasText(Next(v).kind)
              || (&& Next(v).kind == Punct(OPEN_BRACKET)
                  && if it.scalar.Enumeration? then Next(s).kind == Punct(CLOSE_BRACKET) || EnumsExact(it.scalar.names, s)
                     else Steady(it.scalar, None, true, s))
    ensures it.scalar.Enumeration? ==> ReadEnumArray(it.scalar.names, v).code.Ret?
    ensures !it.scalar.Enumeration? && Next(v).kind == Punct(OPEN_BRACKET) ==> ReadPairs(Scalars, it, depth, Next(v).rest, [], []).code.Ret?
  {
    hide Next, ReadPairs, ReadEnums, Steady, EnumsExact, Value, Run;
    ValueStarts(v);
    ValueIsNamed(v);
    TokenLands(ANY, v);
    ScalarArrayLands(ANY, it, depth, v);
    var s := Next(v).rest;
    if Next(v).kind == Punct(OPEN_BRACKET) {
      BehindBracket(ANY, v);
      match it.scalar
      case Enumeration(names) =>
        if Next(s).kind == Punct(CLOSE_BRACKET) { EmptyEnums(names, s); } else { EnumsIff(names, s, []); }
      case _ => PairsIff(None, it, depth, Place(First, [Bracketed]), s, [], [], Value(v).value);
    } else if Opens(Next(v).kind) {
      InsideIsBefore(ANY, s, Value(v).value);
    }
  }

  lemma {:induction false} EmptyEnums(names: seq<bytes>, s: bytes)
    requires Next(s).kind == Punct(CLOSE_BRACKET)
    ensures ReadEnums(names, s, []) == Out(OKAY, [], Next(s).rest)
  {
    hide Next;
  }
}
