/**
 Only such values are read whole: a reader that stops inside a value is caught there, because what
 goes on reading stops at the brackets still open. Fixed arrays of structs that the text names escape,
 see `JsonWitness`.
 */
module JsonCaught {
  import opened Bytes
  import opened JsonLex
  import opened JsonSkip
  import opened JsonTag
  import opened JsonFields
  import opened JsonReading
  import opened JsonInside
  import opened JsonLanding
  import opened JsonExact
  import opened JsonWhole

  // ----- Members -----

  lemma {:induction false} ObjectCaught(names: Names, fields: seq<Field>, depth: nat, s: bytes, slots: seq<Slot>)
    requires ShapedSlots(fields, slots) && CalmFields(names, fields) && NamedObject(names, s)
    requires Whole(ReadMembers(fields, NO_MASK, depth, s, slots), Object(s))
    ensures ObjectExact(fields, depth, s)
    decreases |s|, 3
  {
    hide Next, ReadMembers, MembersExact, Members, ShapedSlots, CalmFields, Run;
    if Next(s).kind != Punct(CLOSE_BRACE) { MembersCaught(names, fields, depth, s, slots); }
  }

  lemma {:induction false} MembersCaught(names: Names, fields: seq<Field>, depth: nat, s: bytes, slots: seq<Slot>)
    requires ShapedSlots(fields, slots) && CalmFields(names, fields) && NamedMembers(names, s)
    requires Whole(ReadMembers(fields, NO_MASK, depth, s, slots), Members(s))
    ensures MembersExact(fields, depth, s)
    decreases |s|, 2
  {
    hide Next, FieldExact, ReadMember, Value, NamedValue, ShapedSlots, CalmFields, Allowed, Run;
    var v, t := FirstMember(names, s);
    var r := Members(s).value;
    var o := ReadMember(fields, NO_MASK, depth, Next(s).text, v, slots);
    assert o.code == OKAY;
    MemberLands(names, fields, depth, Next(s).text, v, slots);
    if o.rest != t {
      var q := PlaceAfter(names, o.rest, t, r, [Braced]);
      MembersLandFrom(names, fields, depth, q, o.rest, o.val, r);
      InsideIsBefore(names, r, r);
    }
    MemberCaught(names, fields, depth, Next(s).text, v, slots);
    if Next(t).kind == Punct(COMMA) {
      NoTrailingComma(Next(t).rest);
      MembersCaught(names, fields, depth, Next(t).rest, o.val);
    }
  }

  lemma {:induction false} MemberCaught(names: Names, fields: seq<Field>, depth: nat, key: bytes, v: bytes,
        slots: seq<Slot>)
    requires ShapedSlots(fields, slots) && CalmFields(names, fields) && NamedValue(names, v) && Allowed(names, key)
    requires Whole(ReadMember(fields, NO_MASK, depth, key, v, slots), Value(v))
    ensures var i := FindField(fields, CString(key)); i >= 0 ==> FieldExact(fields[i], depth, v)
    decreases |v|, 10
  {
    hide Next, FieldExact, ReadField, Elements, Members, Count, NamedValue;
    NamedIsValue(names, v);
    var i := FindField(fields, CString(key));
    if i >= 0 {
      var f := fields[i];
      assert ShapedField(f, slots[i].val) && CalmField(names, f) && CalmUnder(names, f);
      if f.nullable && Next(v).kind == Null {
        NullIsExact(f, depth, v);
      } else {
        assert FindNested(NO_MASK.nested, f.index) == NO_MASK;
        FieldCaught(names, f, depth, v, slots[i]);
      }
    }
  }

  lemma {:induction false} NullIsExact(f: Field, depth: nat, v: bytes)
    requires Value(v).Some? && f.nullable && Next(v).kind == Null
    ensures FieldExact(f, depth, v)
  {
  }

  lemma {:induction false} StructCaught(names: Names, fields: seq<Field>, depth: nat, inArray: bool, v: bytes,
        slots: seq<Slot>)
    requires ShapedSlots(fields, slots) && CalmFields(names, fields) && NamedValue(names, v)
    requires var o := ReadStruct(fields, NO_MASK, depth, inArray, v, slots); !Fatal(o.code) && Some(o.rest) == Value(v)
    ensures StructExact(fields, depth, v) && ReadStruct(fields, NO_MASK, depth, inArray, v, slots).code == OKAY
    decreases |v|, 4
  {
    hide Next, ReadMembers, ObjectExact, ShapedSlots, CalmFields, Elements, Members, NamedValue, NamedObject;
    NamedIsValue(names, v);
    ValueStarts(v);
    StructLands(names, fields, depth, inArray, v, slots);
    var r := Value(v).value;
    if Inside(names, r, r) { InsideIsBefore(names, r, r); }
    BehindBrace(names, v);
    ObjectCaught(names, fields, depth, Next(v).rest, slots);
  }

  // ----- Unions -----

  lemma {:induction false} UnionIsObject(names: Names, tagKey: bytes, variants: seq<Variant>, depth: nat, v: bytes,
        cur: Datum)
    requires ShapedItem(Union(tagKey, variants), cur) && NamedValue(names, v)
    requires ReadUnion(tagKey, variants, depth, v, cur).code == OKAY
    ensures Next(v).kind == Punct(OPEN_BRACE)
  {
    hide Next, ReadVariant, ScanTag, Elements, Members;
    ValueStarts(v);
  }

  lemma {:induction false} CalmInside(names: Names, tagKey: bytes, variants: seq<Variant>, k: nat)
    requires Calm(names, Union(tagKey, variants)) && k < |variants|
    ensures CalmFields(names, variants[k].fields)
  {
    assert CalmVariant(names, variants[k]);
  }

  lemma {:induction false} UnionCaught(names: Names, tagKey: bytes, variants: seq<Variant>, depth: nat, v: bytes,
        cur: Datum)
    requires ShapedItem(Union(tagKey, variants), cur) && Calm(names, Union(tagKey, variants)) && NamedValue(names, v)
    requires Whole(ReadUnion(tagKey, variants, depth, v, cur), Value(v))
    ensures UnionExact(tagKey, variants, depth, v)
    decreases |v|, 5
  {
    hide Next, ReadUnion, ReadStruct, StructExact, TaggedVariant, ShapedItem, Calm, ShapedSlots, CalmFields, Elements,
      Members,
      NamedValue;
    NamedIsValue(names, v);
    UnionIsObject(names, tagKey, variants, depth, v, cur);
    var k, slots := UnionAsStruct(tagKey, variants, depth, v, cur);
    CalmInside(names, tagKey, variants, k);
    StructCaught(names, variants[k].fields, depth + 1, false, v, slots);
  }

  // ----- Objects left behind one of their members -----

  /** Who goes on ends well: the array's loop at the closing brace, the members around it at the object's end. */
  predicate GoneOn(taker: Taker, u: bytes, r: bytes, slots: seq<Slot>) {
    match taker
    case Array => Next(u).kind == Punct(CLOSE_BRACE)
    case _ => ShapedSlots(taker.fields, slots) && Whole(ReadMembers(taker.fields, NO_MASK, taker.depth, u, slots), Some(r))
  }

  predicate CalmTaker(names: Names, taker: Taker) {
    taker.Array? || CalmFields(names, taker.fields)
  }

  /** Where a reader left an object: right inside its brace. */
  predicate JustInside(names: Names, at: At, u: bytes, r: bytes) {
    (at == First || at == Behind) && Run(names, Place(at, [Braced]), u) == Some(r)
  }

  /** A member loop that stops there with such a result left the object behind a member as described. */
  lemma {:induction false} LeftCaught(names: Names, fields: seq<Field>, depth: nat, s: bytes, slots: seq<Slot>,
        taker: Taker, at: At, next: seq<Slot>)
    requires ShapedSlots(fields, slots) && CalmFields(names, fields) && CalmTaker(names, taker) && NamedMembers(names, s)
    requires var o := ReadMembers(fields, NO_MASK, depth, s, slots); var r := Members(s).value;
             Accepts(taker, o.code) && JustInside(names, at, o.rest, r) && GoneOn(taker, o.rest, r, next)
    ensures Left(fields, depth, s, taker)
    decreases |s|, 2
  {
    hide Next, ReadMember, FieldExact, LeftBehind, Value, NamedValue, ShapedSlots, CalmFields, CalmTaker, Allowed, Run,
      GoesOn,
      GoneOn, Accepts;
    var v, t := FirstMember(names, s);
    var r := Members(s).value;
    var key := Next(s).text;
    var m := ReadMember(fields, NO_MASK, depth, key, v, slots);
    var o := ReadMembers(fields, NO_MASK, depth, s, slots);
    AcceptedIsNotFatal(taker, o.code);
    MemberLands(names, fields, depth, key, v, slots);
    if m.code == OKAY && m.rest == t {
      MemberCaught(names, fields, depth, key, v, slots);
      if Next(t).kind == Punct(COMMA) {
        NoTrailingComma(Next(t).rest);
        LeftCaught(names, fields, depth, Next(t).rest, m.val, taker, at, next);
      } else {
        EmptyIsWhole(fields, NO_MASK, depth, t, m.val);
        RestIsFurther(names, Place(at, [Braced]), o.rest, r);
      }
    } else {
      if m.code == OKAY {
        LoopEndsAtBrace(names, fields, depth, at, m.rest, m.val, t, r);
        MemberInside(names, fields, depth, key, v, slots, taker);
      } else {
        var q := PlaceAfter(names, m.rest, t, r, [Braced]);
        SameOpen(names, q, Place(at, [Braced]), m.rest, r);
        OtherCaught(names, fields, depth, key, v, slots, taker);
      }
      TailCaught(names, taker, t, r, next);
    }
  }

  lemma {:induction false} AcceptedIsNotFatal(taker: Taker, c: Code)
    ensures Accepts(taker, c) ==> !Fatal(c)
  {
  }

  /** From inside a member's value the loop gets right behind it only by the value's own brace. */
  lemma {:induction false} LoopEndsAtBrace(names: Names, fields: seq<Field>, depth: nat, at: At, u: bytes, slots: seq<Slot>,
        t: bytes, r: bytes)
    requires ShapedSlots(fields, slots) && CalmFields(names, fields)
    requires Lands(names, u, t) && u != t && Run(names, Place(Behind, [Braced]), t) == Some(r)
    requires var o := ReadMembers(fields, NO_MASK, depth, u, slots); !Fatal(o.code) && JustInside(names, at, o.rest, r)
    ensures Whole(ReadMembers(fields, NO_MASK, depth, u, slots), Some(t))
    ensures JustInside(names, First, u, t) || JustInside(names, Behind, u, t)
  {
    hide ReadMembers, ShapedSlots, CalmFields, Run;
    var o := ReadMembers(fields, NO_MASK, depth, u, slots);
    var q := PlaceAfter(names, u, t, r, [Braced]);
    var w := Innermost(names, q, u, r);
    MembersLand(names, fields, depth, Place(q.at, [q.open[0]]), u, slots, w);
    var p := PlaceAfter(names, o.rest, w, r, q.open[1..]);
    SameOpen(names, p, Place(at, [Braced]), o.rest, r);
    assert q.open[1..] == [Braced] && q.open[..1] == [q.open[0]];
    InsideEnds(names, o.rest, w);
  }

  lemma {:induction false} TailCaught(names: Names, taker: Taker, t: bytes, r: bytes, next: seq<Slot>)
    requires CalmTaker(names, taker) && Run(names, Place(Behind, [Braced]), t) == Some(r) && GoneOn(taker, t, r, next)
    ensures GoesOn(taker, t)
    decreases |t|, 3
  {
    hide Next, MembersExact, ReadMember, ShapedSlots, CalmFields, Allowed;
    if Next(t).kind != Punct(CLOSE_BRACE) {
      var s := Next(t).rest;
      assert Next(t).kind == Punct(COMMA);
      OverComma(names, Place(Behind, [Braced]), t);
      MembersAt(names, Item, s);
      FirstIsItem(names, s);
      NoTrailingComma(s);
      MembersCaught(names, taker.fields, taker.depth, s, next);
    }
  }

  lemma {:induction false} OtherCaught(names: Names, fields: seq<Field>, depth: nat, key: bytes, v: bytes, slots: seq<Slot>,
        taker: Taker)
    requires ShapedSlots(fields, slots) && CalmFields(names, fields) && NamedValue(names, v) && Allowed(names, key)
    requires var m := ReadMember(fields, NO_MASK, depth, key, v, slots);
             m.code != OKAY && Accepts(taker, m.code) && Some(m.rest) == Value(v)
    ensures var i := FindField(fields, CString(key)); i >= 0 && LeftBehind(fields, fields[i], depth, v, taker)
  {
    hide Next, OtherKind, ReadField, Elements, Members, Count, NamedValue, Accepts;
    NamedIsValue(names, v);
    var i := FindField(fields, CString(key));
    if i < 0 {
      CountersFollowGrammar(v);
    } else {
      var f := fields[i];
      assert ShapedField(f, slots[i].val) && CalmField(names, f) && CalmUnder(names, f);
      assert FindNested(NO_MASK.nested, f.index) == NO_MASK;
      OtherFieldCaught(names, f, depth, v, slots[i], taker);
    }
  }

  lemma {:induction false} OtherFieldCaught(names: Names, f: Field, depth: nat, v: bytes, cur: Slot, taker: Taker)
    requires ShapedField(f, cur.val) && CalmUnder(names, f) && NamedValue(names, v)
    requires var o := ReadField(f, NO_MASK, depth, v, cur);
             o.code != OKAY && Accepts(taker, o.code) && Some(o.rest) == Value(v)
    ensures OtherKind(f, v, taker)
  {
    hide Next, ReadScalar, ReadStruct, ReadUnion, ReadMap, ReadFixed, ReadArray, ReadEnumArray, ScalarFits, Refused,
      ShapedItem,
      Calm, Elements, Members, NamedValue, InsideArray, Inside;
    NamedIsValue(names, v);
    var t := Value(v).value;
    TokenLands(names, v);
    InsideEnds(names, t, t);
    ArrayIsInside(names, t, t);
    ValueStarts(v);
    match f.shape
    case Single =>
      if f.item.Plain? {
        ScalarOutcome(f.item.scalar, v, cur.val);
        StringsAreOne(f.item.scalar, v, cur.val);
      } else {
        SingleCodes(names, f.item, depth, v, cur.val);
      }
    case Fixed(_) => FixedLands(names, f, depth, v, cur);
    case Dynamic => DynamicLands(names, f, depth, v, cur);
  }

  /** Nested structs, unions and maps pass nothing else up. */
  lemma {:induction false} SingleCodes(names: Names, it: Item, depth: nat, v: bytes, cur: Datum)
    requires !it.Plain? && ShapedItem(it, cur) && Calm(names, it) && NamedValue(names, v)
    ensures var c := ReadSingle(it, NO_MASK, depth, v, cur).code; c == OKAY || Fatal(c)
  {
    hide Next, ReadStruct, ReadUnion, ReadMap, ShapedSlots, CalmFields, CalmVariant, Elements, Members, NamedValue, Inside;
    match it
    case Nested(_) =>
    case Union(tagKey, variants) => UnionLands(names, tagKey, variants, depth + 1, v, cur);
    case Map(value) => MapLands(names, value, v, cur.entries);
  }

  lemma {:induction false} MemberInside(names: Names, fields: seq<Field>, depth: nat, key: bytes, v: bytes,
        slots: seq<Slot>,
        taker: Taker)
    requires ShapedSlots(fields, slots) && CalmFields(names, fields) && NamedValue(names, v) && Allowed(names, key)
    requires var m := ReadMember(fields, NO_MASK, depth, key, v, slots); var t := Value(v).value;
             && m.code == OKAY && Whole(ReadMembers(fields, NO_MASK, depth, m.rest, m.val), Some(t))
             && (JustInside(names, First, m.rest, t) || JustInside(names, Behind, m.rest, t))
    ensures var i := FindField(fields, CString(key)); i >= 0 && LeftBehind(fields, fields[i], depth, v, taker)
    decreases |v|, 10
  {
    hide Next, LeftInside, ReadField, ReadMembers, Elements, Members, Count, NamedValue, Run;
    NamedIsValue(names, v);
    var m := ReadMember(fields, NO_MASK, depth, key, v, slots);
    var at := if JustInside(names, First, m.rest, Value(v).value) then First else Behind;
    RestIsFurther(names, Place(at, [Braced]), m.rest, Value(v).value);
    var i := FindField(fields, CString(key));
    if i < 0 {
      CountersFollowGrammar(v);
    } else {
      var f := fields[i];
      assert ShapedField(f, slots[i].val) && CalmField(names, f) && CalmUnder(names, f);
      assert FindNested(NO_MASK.nested, f.index) == NO_MASK;
      if f.nullable && Next(v).kind == Null {
        TokenLands(names, v);
      } else {
        InsideCaught(names, fields, f, depth, v, slots[i], at, m.val);
      }
    }
  }

  lemma {:induction false} InsideCaught(names: Names, fields: seq<Field>, f: Field, depth: nat, v: bytes, cur: Slot, at: At,
        next: seq<Slot>)
    requires ShapedField(f, cur.val) && CalmUnder(names, f) && NamedValue(names, v)
    requires ShapedSlots(fields, next) && CalmFields(names, fields)
    requires var o := ReadField(f, NO_MASK, depth, v, cur); var t := Value(v).value;
             && o.code == OKAY && JustInside(names, at, o.rest, t)
             && Whole(ReadMembers(fields, NO_MASK, depth, o.rest, next), Some(t))
    ensures Next(v).kind == Punct(OPEN_BRACE) && LeftInside(fields, f, depth, Next(v).rest)
    decreases |v|, 9
  {
    hide Next, LeftInside, ReadSingle, ReadFixed, ReadArray, ReadEnums, ReadMembers, ShapedItem, ShapedSlots, Calm,
      CalmFields, Elements, Members, NamedValue, NamedObject, InsideArray, Run;
    NamedIsValue(names, v);
    ValueStarts(v);
    var t := Value(v).value;
    var u := ReadField(f, NO_MASK, depth, v, cur).rest;
    NotInArray(names, at, u, t);
    match f.shape
    case Single => SingleInside(names, fields, f, depth, v, cur.val, at, next);
    case Fixed(_) => FixedLands(names, f, depth, v, cur);
    case Dynamic =>
      DynamicLands(names, f, depth, v, cur);
      TokenLands(names, v);
      RestIsFurther(names, Place(at, [Braced]), u, t);
      assert f.item.Plain? && u == Next(v).rest;
      BehindBrace(names, v);
      ObjectCaught(names, fields, depth, u, next);
      DynamicIsInside(fields, f, depth, u);
  }

  lemma {:induction false} DynamicIsInside(fields: seq<Field>, f: Field, depth: nat, s: bytes)
    requires f.shape.Dynamic? && f.item.Plain? && Object(s).Some? && ObjectExact(fields, depth, s)
    ensures LeftInside(fields, f, depth, s)
  {
  }

  /** No place is inside an array and right inside a brace. */
  lemma {:induction false} NotInArray(names: Names, at: At, u: bytes, t: bytes)
    requires JustInside(names, at, u, t)
    ensures !LandsInArray(names, u, t)
  {
    RestIsFurther(names, Place(at, [Braced]), u, t);
    if InsideArray(names, u, t) {
      var p: Place :| (p.at == First || p.at == Behind) && InArray(p) && Run(names, p, u) == Some(t);
      SameOpen(names, p, Place(at, [Braced]), u, t);
    }
  }

  lemma {:induction false} SingleInside(names: Names, fields: seq<Field>, f: Field, depth: nat, v: bytes, cur: Datum,
        at: At,
        next: seq<Slot>)
    requires f.shape.Single? && ShapedItem(f.item, cur) && Calm(names, f.item) && NamedValue(names, v)
    requires ShapedSlots(fields, next) && CalmFields(names, fields)
    requires var o := ReadSingle(f.item, NO_MASK, depth, v, cur); var t := Value(v).value;
             && o.code == OKAY && JustInside(names, at, o.rest, t)
             && Whole(ReadMembers(fields, NO_MASK, depth, o.rest, next), Some(t))
    ensures Next(v).kind == Punct(OPEN_BRACE) && LeftInside(fields, f, depth, Next(v).rest)
    decreases |v|, 8
  {
    hide Next, ReadScalar, ReadMembers, ReadUnion, ReadEntries, ScalarFits, Left, EntriesLeft, TaggedVariant,
      ObjectExact, ShapedSlots,
      ShapedVariant, CalmFields, CalmVariant, Elements, Members, NamedValue, Run;
    NamedIsValue(names, v);
    ValueStarts(v);
    var s := Next(v).rest;
    var t := Value(v).value;
    RestIsFurther(names, Place(at, [Braced]), ReadSingle(f.item, NO_MASK, depth, v, cur).rest, t);
    TokenLands(names, v);
    if Next(v).kind == Punct(OPEN_BRACE) { BehindBrace(names, v); }
    match f.item
    case Plain(scalar) =>
      ScalarOutcome(scalar, v, cur);
      FitsOneToken(scalar, v);
    case Nested(inner) =>
      if Next(s).kind == Punct(CLOSE_BRACE) { EmptyIsWhole(inner, NO_MASK, depth + 1, s, cur.slots); }
      LeftCaught(names, inner, depth + 1, s, cur.slots, Struct(fields, depth), at, next);
    case Union(tagKey, variants) => UnionLeftCaught(names, fields, tagKey, variants, depth, v, cur, at, next);
    case Map(value) =>
      if Next(s).kind == Punct(CLOSE_BRACE) { EmptyEntries(value, s, cur.entries); }
      EntriesCaught(names, value, s, cur.entries, Struct(fields, depth), at, next);
  }

  lemma {:induction false} UnionLeftCaught(names: Names, fields: seq<Field>, tagKey: bytes, variants: seq<Variant>,
        depth: nat,
        v: bytes, cur: Datum, at: At, next: seq<Slot>)
    requires ShapedItem(Union(tagKey, variants), cur) && Calm(names, Union(tagKey, variants)) && NamedValue(names, v)
    requires ShapedSlots(fields, next) && CalmFields(names, fields)
    requires var o := ReadUnion(tagKey, variants, depth + 1, v, cur); var t := Value(v).value;
             && o.code == OKAY && JustInside(names, at, o.rest, t)
             && Whole(ReadMembers(fields, NO_MASK, depth, o.rest, next), Some(t))
    ensures Next(v).kind == Punct(OPEN_BRACE) && Members(Next(v).rest).Some? && depth + 2 <= JSON_MAX_DEPTH
    ensures var k := TaggedVariant(tagKey, variants, Next(v).rest);
            k >= 0 && Left(variants[k].fields, depth + 2, Next(v).rest, Variants(fields, depth))
    decreases |v|, 7
  {
    hide Next, ReadUnion, ReadMembers, Left, TaggedVariant, Calm, ShapedItem, ShapedSlots, CalmFields, Elements, Members,
      NamedValue, Run;
    NamedIsValue(names, v);
    UnionIsObject(names, tagKey, variants, depth + 1, v, cur);
    var s := Next(v).rest;
    BehindBrace(names, v);
    var k, slots := UnionAsStruct(tagKey, variants, depth + 1, v, cur);
    CalmInside(names, tagKey, variants, k);
    RestIsFurther(names, Place(at, [Braced]), ReadUnion(tagKey, variants, depth + 1, v, cur).rest, Value(v).value);
    if Next(s).kind == Punct(CLOSE_BRACE) { EmptyIsWhole(variants[k].fields, NO_MASK, depth + 2, s, slots); }
    LeftCaught(names, variants[k].fields, depth + 2, s, slots, Variants(fields, depth), at, next);
  }

  lemma {:induction false} EntriesCaught(names: Names, ty: Scalar, s: bytes, done: seq<(bytes, Datum)>, taker: Taker,
        at: At,
        next: seq<Slot>)
    requires CalmTaker(names, taker) && NamedMembers(names, s)
    requires var o := ReadEntries(ty, s, done); var r := Members(s).value;
             o.code == OKAY && JustInside(names, at, o.rest, r) && GoneOn(taker, o.rest, r, next)
    ensures EntriesLeft(ty, s, taker)
    decreases |s|, 2
  {
    hide Next, ReadScalar, Value, NamedValue, Refused, MapExact, Allowed, Run, GoesOn, GoneOn, CalmTaker;
    var v, t := FirstMember(names, s);
    var r := Members(s).value;
    var e := ReadScalar(ty, v, Unwritten);
    var all := done + [(Next(s).text, e.val)];
    ValueStarts(v);
    ScalarOutcome(ty, v, Unwritten);
    TokenLands(names, v);
    RestIsFurther(names, Place(at, [Braced]), ReadEntries(ty, s, done).rest, r);
    if HasText(Next(v).kind) {
      if Next(t).kind == Punct(COMMA) { EntriesCaught(names, ty, Next(t).rest, all, taker, at, next); }
    } else {
      ObjectForEntry(names, ty, v, all, at, r);
      TailCaught(names, taker, t, r, next);
    }
  }

  /** A bracket for a map's value: the entries go on inside and end at its end. */
  lemma {:induction false} ObjectForEntry(names: Names, ty: Scalar, v: bytes, done: seq<(bytes, Datum)>, at: At, r: bytes)
    requires NamedValue(names, v) && Opens(Next(v).kind) && Run(names, Place(Behind, [Braced]), Value(v).value) == Some(r)
    requires var o := ReadEntries(ty, Next(v).rest, done); o.code == OKAY && JustInside(names, at, o.rest, r)
    ensures Next(v).kind == Punct(OPEN_BRACE) && MapExact(ty, v) && Some(ReadEntries(ty, Next(v).rest, done).rest) == Value(v)
  {
    hide Next, ReadEntries, NamedValue, MapExact, Value, Run;
    NamedIsValue(names, v);
    var t := Value(v).value;
    var o := ReadEntries(ty, Next(v).rest, done);
    BehindOpener(names, v);
    EntriesLand(names, ty, Place(First, [Opened(Next(v).kind)]), Next(v).rest, done, t);
    var q := PlaceAfter(names, o.rest, t, r, [Braced]);
    SameOpen(names, q, Place(at, [Braced]), o.rest, r);
    MapIff(ty, v, done);
  }

  /** An element is left right before its closing brace if and only if its tokens say so. */
  lemma {:induction false} StopsIffLeft(names: Names, fields: seq<Field>, depth: nat, v: bytes)
    requires CalmFields(names, fields) && NamedValue(names, v)
    ensures Value(v).Some? && (StopsAtBrace(fields, depth, v) <==> LeftAtBrace(fields, depth, v))
    decreases |v|, 6
  {
    hide Next, ReadMembers, Left, ShapedSlots, CalmFields, Elements, Members, NamedValue, Run;
    NamedIsValue(names, v);
    if LeftAtBrace(fields, depth, v) {
      StopsWhereLeft(fields, depth, v);
    } else if StopsAtBrace(fields, depth, v) {
      ClearedIsShaped(fields);
      ValueStarts(v);
      BehindBrace(names, v);
      var s := Next(v).rest;
      var u := ReadStruct(fields, NO_MASK, depth, true, v, ClearedSlots(fields)).rest;
      RunOverCloser(names, Behind, Braced, u);
      RestIsFurther(names, Place(Behind, [Braced]), u, Value(v).value);
      if Next(s).kind == Punct(CLOSE_BRACE) { EmptyIsWhole(fields, NO_MASK, depth, s, ClearedSlots(fields)); }
      LeftCaught(names, fields, depth, s, ClearedSlots(fields), Array, Behind, []);
    }
  }

  // ----- Arrays -----

  /** In an object no value stands where the loops expect the next element. */
  lemma {:induction false} NoElementThere(names: Names, q: Place, u: bytes, r: bytes)
    requires Run(names, q, u) == Some(r) && |q.open| > 1 && q.open[0] == Braced && (q.at == First || q.at == Behind)
    ensures var k := Next(u).kind; var l := Next(Next(u).rest).kind;
            && (k == Punct(COMMA) || k == String || k == Punct(CLOSE_BRACE))
            && (l == Punct(COMMA) || l == String || l == Punct(COLON) || l == Punct(CLOSE_BRACE) || l == Punct(CLOSE_BRACKET))
            && (l == Punct(CLOSE_BRACKET) ==> k == Punct(CLOSE_BRACE) && q.open[1] == Bracketed)
            && (k == Punct(CLOSE_BRACE) ==> Run(names, Place(Behind, q.open[1..]), Next(u).rest) == Some(r))
  {
    hide Next, Allowed;
    var p := Step(names, q, Next(u)).value;
    assert Run(names, p, Next(u).rest) == Some(r);
    assert p.open != [];
  }

  /** Inside an element of an array of structs: caught, but for the element's own brace before the array's bracket. */
  lemma {:induction false} StructsTrapped(names: Names, it: Item, depth: nat, q: Place, u: bytes, done: seq<Datum>,
        t: bytes, r: bytes)
    requires it.Nested? && Calm(names, it) && forall e :: e in done ==> ShapedItem(it, e)
    requires Run(names, q, u) == Some(r) && |q.open| > 1 && InArray(q) && (q.at == First || q.at == Behind)
    requires Run(names, Place(q.at, q.open[..|q.open| - 1]), u) == Some(t)
    requires Whole(ReadSeparator(Structs, it, depth, u, [], done), Some(r))
    ensures Next(u).kind == Punct(CLOSE_BRACE) && Next(u).rest == t && Next(t).kind == Punct(CLOSE_BRACKET)
  {
    hide Next, ReadMembers, ReadSeparator, ShapedSlots, Calm, Run;
    var o := ReadSeparator(Structs, it, depth, u, [], done);
    if q.open[0] == Bracketed {
      var w := Innermost(names, q, u, r);
      SeparatorLands(names, Structs, it, depth, Place(q.at, [Bracketed]), u, [], done, w);
      LandsOutside(names, o.rest, w, r, q.open[1..]);
      InsideIsBefore(names, r, r);
    } else {
      NoElementThere(names, q, u, r);
      SeparatorGoesOn(it, depth, u, done);
      var l := Next(Next(u).rest);
      assert l.kind == Punct(CLOSE_BRACKET);
      CloserLands(names, Place(Behind, q.open[1..]), Next(u).rest, r);
      assert o.rest == l.rest == r;
      BraceClosesElement(names, q, u, t, r);
    }
  }

  lemma {:induction false} SeparatorGoesOn(it: Item, depth: nat, u: bytes, done: seq<Datum>)
    requires it.Nested? && forall e :: e in done ==> ShapedItem(it, e)
    requires Next(u).kind in {Punct(COMMA), String, Punct(CLOSE_BRACE)}
    ensures var o := ReadSeparator(Structs, it, depth, u, [], done); var l := Next(Next(u).rest);
            o.code == OKAY && l.kind in {Punct(COMMA), String, Punct(COLON), Punct(CLOSE_BRACE), Punct(CLOSE_BRACKET)} ==>
              l.kind == Punct(CLOSE_BRACKET) && o.rest == l.rest
  {
    hide Next, ReadMembers, ShapedSlots;
    var s := Next(u).rest;
    ClearedItemIsShaped(it);
    assert ReadSeparator(Structs, it, depth, u, [], done) == ReadPairs(Structs, it, depth, s, [], done);
    if depth < JSON_MAX_DEPTH && Next(s).kind == Punct(CLOSE_BRACKET) {
      BracketIsLast(it, depth, s, done);
    } else if Next(s).kind in {Punct(COMMA), String, Punct(COLON), Punct(CLOSE_BRACE), Punct(CLOSE_BRACKET)} {
      assert ReadElement(it, depth, s, ClearedItem(it)).code == FAILED;
    }
  }

  lemma {:induction false} BraceClosesElement(names: Names, q: Place, u: bytes, t: bytes, r: bytes)
    requires |q.open| > 1 && q.open[0] == Braced && q.open[1] == Bracketed && (q.at == First || q.at == Behind)
    requires Next(u).kind == Punct(CLOSE_BRACE) && Next(Next(u).rest).kind == Punct(CLOSE_BRACKET)
    requires Run(names, Place(q.at, q.open[..|q.open| - 1]), u) == Some(t) && Run(names, q, u) == Some(r)
    requires Next(Next(u).rest).rest == r
    ensures Next(u).rest == t
  {
    hide Next, Allowed;
    var s := Next(u).rest;
    assert q.open[1..][1..] == q.open[2..];
    assert Run(names, Place(Behind, q.open[1..]), s) == Some(r);
    assert Run(names, Place(Behind, q.open[2..]), r) == Some(r);
    assert |q.open| == 2;
    assert q.open[..1] == [Braced] && [Braced][1..] == [];
    assert Run(names, Place(Behind, []), s) == Some(s);
  }

  lemma {:induction false} StructsCaught(names: Names, it: Item, depth: nat, s: bytes, done: seq<Datum>)
    requires it.Nested? && Calm(names, it) && NamedElements(names, s) && forall e :: e in done ==> ShapedItem(it, e)
    requires Whole(ReadPairs(Structs, it, depth, s, [], done), Elements(s))
    ensures StructsExact(it.fields, depth + 1, None, s)
    decreases |s|, 7
  {
    hide Next, ReadStruct, StructExact, Value, NamedValue, ShapedItem, CalmFields, LeftAtBrace, Run;
    var t := FirstElement(names, s);
    ClearedItemIsShaped(it);
    var cur := ClearedItem(it);
    var e := ReadElement(it, depth, s, cur);
    if e.rest == t {
      ElementCaught(names, it.fields, depth + 1, s);
      if Next(t).kind == Punct(COMMA) { StructsCaught(names, it, depth, Next(t).rest, done + [e.val]); }
    } else {
      ElementStops(names, it, depth, s, done);
      StopsIffLeft(names, it.fields, depth + 1, s);
    }
  }

  lemma {:induction false} ElementCaught(names: Names, fields: seq<Field>, depth: nat, s: bytes)
    requires CalmFields(names, fields) && NamedValue(names, s) && ShapedSlots(fields, ClearedSlots(fields))
    requires var o := ReadStruct(fields, NO_MASK, depth, true, s, ClearedSlots(fields)); !Fatal(o.code) && Some(o.rest) == Value(s)
    ensures StructExact(fields, depth, s) && ReadStruct(fields, NO_MASK, depth, true, s, ClearedSlots(fields)).code == OKAY
    decreases |s|, 5
  {
    StructCaught(names, fields, depth, true, s, ClearedSlots(fields));
  }

  lemma {:induction false} ElementStops(names: Names, it: Item, depth: nat, s: bytes, done: seq<Datum>)
    requires it.Nested? && Calm(names, it) && NamedElements(names, s) && forall e :: e in done ==> ShapedItem(it, e)
    requires Whole(ReadPairs(Structs, it, depth, s, [], done), Elements(s)) && ShapedItem(it, ClearedItem(it))
    requires Some(ReadElement(it, depth, s, ClearedItem(it)).rest) != Value(s)
    ensures StopsAtBrace(it.fields, depth + 1, s) && Next(Value(s).value).kind == Punct(CLOSE_BRACKET)
  {
    hide Next, ReadMembers, Value, NamedValue, ShapedSlots, CalmFields, Run;
    var r := Elements(s).value;
    var t := FirstElement(names, s);
    var slots := ClearedSlots(it.fields);
    var o := ReadStruct(it.fields, NO_MASK, depth + 1, true, s, slots);
    StructLands(names, it.fields, depth + 1, true, s, slots);
    ValueStarts(s);
    var all := done + [StructV(o.val)];
    LandsOutside(names, o.rest, t, r, [Bracketed]);
    InsideEnds(names, o.rest, r);
    var q := PlaceAfter(names, o.rest, t, r, [Bracketed]);
    DeeperInArray(Place(Behind, [Bracketed]), q);
    assert Whole(ReadSeparator(Structs, it, depth, o.rest, [], all), Some(r));
    StructsTrapped(names, it, depth, q, o.rest, all, t, r);
  }

  /** Inside an element of an array of unions: caught. */
  lemma {:induction false} UnionsTrapped(names: Names, tagKey: bytes, variants: seq<Variant>, depth: nat, q: Place,
        u: bytes,
        done: seq<Datum>, r: bytes)
    requires Calm(names, Union(tagKey, variants))
    requires Run(names, q, u) == Some(r) && |q.open| > 1 && InArray(q) && (q.at == First || q.at == Behind)
    ensures Next(u).kind == Punct(CLOSE_BRACKET) ==> Next(u).rest != r
    ensures Next(u).kind != Punct(CLOSE_BRACKET) ==>
              !Whole(ReadUnions(tagKey, variants, depth, if Next(u).kind == Punct(COMMA) then Next(u).rest else u, done), Some(r))
  {
    hide Next, ReadUnion, ReadUnions, ShapedItem, Calm, Run;
    if Next(u).kind == Punct(CLOSE_BRACKET) {
      CloserLands(names, q, u, r);
      RestIsFurther(names, Place(Behind, q.open[1..]), Next(u).rest, r);
    } else if q.open[0] == Braced {
      NoElementThere(names, q, u, r);
      NoUnionThere(tagKey, variants, depth, if Next(u).kind == Punct(COMMA) then Next(u).rest else u, done);
    } else {
      var w := Innermost(names, q, u, r);
      var comma := Next(u).kind == Punct(COMMA);
      var p := if comma then Place(Item, [Bracketed]) else Place(q.at, [Bracketed]);
      if comma { OverComma(names, Place(q.at, [Bracketed]), u); }
      var s := if comma then Next(u).rest else u;
      UnionsLand(names, tagKey, variants, depth, p, s, done, w);
      var o := ReadUnions(tagKey, variants, depth, s, done);
      if o.code == OKAY {
        LandsOutside(names, o.rest, w, r, q.open[1..]);
        if o.rest == r { InsideIsBefore(names, r, r); }
      }
    }
  }

  lemma {:induction false} NoUnionThere(tagKey: bytes, variants: seq<Variant>, depth: nat, s: bytes, done: seq<Datum>)
    requires Next(s).kind in {Punct(COMMA), String, Punct(COLON), Punct(CLOSE_BRACE)}
    ensures ReadUnions(tagKey, variants, depth, s, done).code != OKAY
  {
    hide Next, ReadUnion;
    ClearedItemIsShaped(Union(tagKey, variants));
    OnlyObjectsAreUnions(tagKey, variants, depth + 1, s, ClearedItem(Union(tagKey, variants)));
  }

  lemma {:induction false} UnionsCaught(names: Names, tagKey: bytes, variants: seq<Variant>, depth: nat, s: bytes,
        done: seq<Datum>)
    requires Calm(names, Union(tagKey, variants)) && NamedElements(names, s)
    requires Whole(ReadUnions(tagKey, variants, depth, s, done), Elements(s))
    ensures UnionsExact(tagKey, variants, depth + 1, None, s)
    decreases |s|, 7
  {
    hide Next, ReadUnion, UnionExact, Value, NamedValue, ShapedItem, Calm, Run;
    var it := Union(tagKey, variants);
    var r := Elements(s).value;
    var t := FirstElement(names, s);
    ClearedItemIsShaped(it);
    ValueStarts(s);
    var e := ReadUnion(tagKey, variants, depth + 1, s, ClearedItem(it));
    UnionLands(names, tagKey, variants, depth + 1, s, ClearedItem(it));
    if e.rest == t {
      UnionCaught(names, tagKey, variants, depth + 1, s, ClearedItem(it));
      if Next(t).kind == Punct(COMMA) { UnionsCaught(names, tagKey, variants, depth, Next(t).rest, done + [e.val]); }
    } else {
      var q := PlaceAfter(names, e.rest, t, r, [Bracketed]);
      DeeperInArray(Place(Behind, [Bracketed]), q);
      UnionsTrapped(names, tagKey, variants, depth, q, e.rest, done + [e.val], r);
    }
  }

  lemma {:induction false} InlineTrapped(names: Names, it: Item, depth: nat, q: Place, u: bytes, held: seq<Datum>,
        done: seq<Datum>, r: bytes)
    requires it.Union? && Calm(names, it) && (forall e :: e in held ==> ShapedItem(it, e))
    requires (forall e :: e in done ==> ShapedItem(it, e))
    requires Run(names, q, u) == Some(r) && |q.open| > 1 && InArray(q) && (q.at == First || q.at == Behind)
    ensures !Whole(ReadSeparator(Inline, it, depth, u, held, done), Some(r))
  {
    hide Next, ReadSeparator, ReadUnion, ShapedItem, Calm, Run;
    if q.open[0] == Braced {
      NoElementThere(names, q, u, r);
      InlineStops(it, depth, u, held, done);
    } else {
      var w := Innermost(names, q, u, r);
      SeparatorLands(names, Inline, it, depth, Place(q.at, [Bracketed]), u, held, done, w);
      var o := ReadSeparator(Inline, it, depth, u, held, done);
      if o.code == OKAY {
        LandsOutside(names, o.rest, w, r, q.open[1..]);
        if o.rest == r { InsideIsBefore(names, r, r); }
      }
    }
  }

  lemma {:induction false} InlineStops(it: Item, depth: nat, u: bytes, held: seq<Datum>, done: seq<Datum>)
    requires it.Union? && (forall e :: e in held ==> ShapedItem(it, e)) && (forall e :: e in done ==> ShapedItem(it, e))
    requires Next(u).kind in {Punct(COMMA), String, Punct(CLOSE_BRACE)}
    requires Next(Next(u).rest).kind in {Punct(COMMA), String, Punct(COLON), Punct(CLOSE_BRACE), Punct(CLOSE_BRACKET)}
    ensures ReadSeparator(Inline, it, depth, u, held, done).code != OKAY
  {
    hide Next, ReadPairs, ShapedItem;
    NoInlineUnionThere(it, depth, Next(u).rest, held, done);
    assert ReadSeparator(Inline, it, depth, u, held, done) == ReadPairs(Inline, it, depth, Next(u).rest, held, done);
  }

  lemma {:induction false} NoInlineUnionThere(it: Item, depth: nat, s: bytes, held: seq<Datum>, done: seq<Datum>)
    requires it.Union? && (forall e :: e in held ==> ShapedItem(it, e)) && (forall e :: e in done ==> ShapedItem(it, e))
    requires Next(s).kind != Eof && Next(s).kind != Punct(OPEN_BRACE)
    ensures ReadPairs(Inline, it, depth, s, held, done).code != OKAY
  {
    hide Next, ReadUnion, ReadSeparator, ShapedItem;
    if held != [] {
      OnlyObjectsAreUnions(it.tagKey, it.variants, depth + 1, s, held[0]);
      assert ReadElement(it, depth, s, held[0]).code == FAILED;
    }
  }

  lemma {:induction false} InlineUnionsCaught(names: Names, it: Item, depth: nat, s: bytes, held: seq<Datum>,
        done: seq<Datum>)
    requires it.Union? && Calm(names, it) && (forall e :: e in held ==> ShapedItem(it, e))
    requires (forall e :: e in done ==> ShapedItem(it, e))
    requires NamedElements(names, s) && Whole(ReadPairs(Inline, it, depth, s, held, done), Elements(s))
    ensures UnionsExact(it.tagKey, it.variants, depth + 1, Some(|held|), s)
    decreases |s|, 7
  {
    hide Next, ReadUnion, UnionExact, Value, NamedValue, ShapedItem, Calm, Run;
    var r := Elements(s).value;
    var t := FirstElement(names, s);
    var e := ReadUnion(it.tagKey, it.variants, depth + 1, s, held[0]);
    UnionLands(names, it.tagKey, it.variants, depth + 1, s, held[0]);
    if e.rest == t {
      UnionCaught(names, it.tagKey, it.variants, depth + 1, s, held[0]);
      if Next(t).kind == Punct(COMMA) { InlineUnionsCaught(names, it, depth, Next(t).rest, held[1..], done + [e.val]); }
    } else {
      var q := PlaceAfter(names, e.rest, t, r, [Bracketed]);
      DeeperInArray(Place(Behind, [Bracketed]), q);
      InlineTrapped(names, it, depth, q, e.rest, held[1..], done + [e.val], r);
    }
  }

  // ----- Fields -----

  lemma {:induction false} FieldCaught(names: Names, f: Field, depth: nat, v: bytes, cur: Slot)
    requires ShapedField(f, cur.val) && CalmUnder(names, f) && NamedValue(names, v)
    requires Whole(ReadField(f, NO_MASK, depth, v, cur), Value(v)) && !(f.nullable && Next(v).kind == Null)
    ensures FieldExact(f, depth, v)
    decreases |v|, 9
  {
    hide Next, ReadSingle, ReadFixed, ReadDynamic, FieldExact, ShapedItem, Calm, Elements, Members, NamedValue;
    NamedIsValue(names, v);
    match f.shape
    case Single => SingleCaught(names, f, depth, v, cur.val);
    case Fixed(_) => FixedCaught(names, f, depth, v, cur);
    case Dynamic => DynamicCaught(names, f, depth, v, cur);
  }

  lemma {:induction false} SingleCaught(names: Names, f: Field, depth: nat, v: bytes, cur: Datum)
    requires f.shape.Single? && ShapedItem(f.item, cur) && Calm(names, f.item) && NamedValue(names, v)
    requires Whole(ReadSingle(f.item, NO_MASK, depth, v, cur), Value(v))
    ensures FieldExact(f, depth, v)
    decreases |v|, 8
  {
    hide Next, ReadScalar, ReadStruct, ReadUnion, ReadMap, ScalarFits, StructExact, UnionExact, MapExact,
      ShapedSlots, ShapedVariant, CalmFields, CalmVariant, Elements, Members, NamedValue;
    NamedIsValue(names, v);
    match f.item
    case Plain(scalar) =>
      ValueStarts(v);
      ScalarOutcome(scalar, v, cur);
    case Nested(fields) => StructCaught(names, fields, depth + 1, false, v, cur.slots);
    case Union(tagKey, variants) => UnionCaught(names, tagKey, variants, depth + 1, v, cur);
    case Map(value) => MapIff(value, v, cur.entries);
  }

  lemma {:induction false} FixedCaught(names: Names, f: Field, depth: nat, v: bytes, cur: Slot)
    requires f.shape.Fixed? && ShapedField(f, cur.val) && CalmUnder(names, f) && NamedValue(names, v)
    requires Whole(ReadFixed(f, depth, v, cur), Value(v))
    ensures FieldExact(f, depth, v)
    decreases |v|, 8
  {
    hide Next, ReadPairs, Steady, StructsExact, UnionsExact, ShapedItem, Calm, Value, NamedValue, Run;
    NamedIsValue(names, v);
    BehindBracket(names, v);
    var s := Next(v).rest;
    if Next(s).kind != Punct(CLOSE_BRACKET) {
      var held := cur.val.elems;
      match f.item
      case Plain(_) =>
        ValueIsNamed(v);
        BehindBracket(ANY, v);
        PairsIff(Some(f.shape.size), f.item, depth, Place(First, [Bracketed]), s, held, [], Value(v).value);
      case Union(_, _) => InlineUnionsCaught(names, f.item, depth, s, held, []);
    }
  }

  lemma {:induction false} DynamicCaught(names: Names, f: Field, depth: nat, v: bytes, cur: Slot)
    requires f.shape.Dynamic? && cur.val.ArrV? && Calm(names, f.item) && NamedValue(names, v)
    requires Whole(ReadDynamic(f, depth, v, cur), Value(v))
    ensures FieldExact(f, depth, v)
    decreases |v|, 8
  {
    hide Next, ReadPairs, ReadUnions, ReadMaps, ReadEnumArray, StructsExact, UnionsExact, MapsExact, ShapedItem,
      Calm, Value, NamedValue, Run, Steady, EnumsExact;
    NamedIsValue(names, v);
    if f.item.Plain? {
      ScalarArrayIff(f.item, depth, v);
    } else if Next(v).kind == Punct(OPEN_BRACKET) {
      BehindBracket(names, v);
      var s := Next(v).rest;
      if Next(s).kind != Punct(CLOSE_BRACKET) {
        match f.item
        case Nested(_) => StructsCaught(names, f.item, depth, s, []);
        case Union(tagKey, variants) => UnionsCaught(names, tagKey, variants, depth, s, []);
        case Map(value) => MapsIff(value, s, []);
      }
    }
  }
}
