/** Which values each reader takes to their end and no further, token by token. */
module JsonExact {
  import opened Bytes
  import opened JsonLex
  import opened JsonSkip
  import opened JsonTag
  import opened JsonFields
  import opened JsonReading
  import opened JsonInside
  import opened JsonLanding
  import Decimal

  // ----- Scalars and maps -----

  /** A token of the field's own kind, with a value it can hold. */
  predicate ScalarFits(ty: Scalar, v: bytes) {
    var l := Next(v);
    match ty
    case Integer(bits, signed) =>
      l.kind == True || l.kind == False || (l.kind == Kind.Int && Decimal.ReadInt(bits, signed, l.text).Some?)
    case Float => (l.kind == Kind.Float || l.kind == Kind.Int) && IsNumeral(l.text)
    case Text => l.kind == Null || l.kind == String
    case Enumeration(names) =>
      || (l.kind == String && CString(l.text) in names)
      || (l.kind == Kind.Int && Decimal.ReadInt(32, true, l.text).Some?)
  }

  /** A token of the field's own kind, with a value it cannot hold. Other kinds are no error to a loop. */
  predicate Refused(ty: Scalar, v: bytes) {
    var l := Next(v);
    match ty
    case Integer(bits, signed) => l.kind == Kind.Int && Decimal.ReadInt(bits, signed, l.text).None?
    case Float => (l.kind == Kind.Float || l.kind == Kind.Int) && !IsNumeral(l.text)
    case Text => false
    case Enumeration(names) =>
      || (l.kind == String && CString(l.text) !in names)
      || (l.kind == Kind.Int && Decimal.ReadInt(32, true, l.text).None?)
  }

  /** Every value is one token, and none is refused. */
  predicate EntriesExact(ty: Scalar, s: bytes)
    requires Members(s).Some?
    decreases |s|
  {
    var v := MemberValue(s).value;
    var l := Next(Value(v).value);
    HasText(Next(v).kind) && !Refused(ty, v) && (l.kind == Punct(COMMA) ==> EntriesExact(ty, l.rest))
  }

  predicate MapExact(ty: Scalar, v: bytes)
    requires Value(v).Some?
  {
    var s := Next(v).rest;
    || Next(v).kind == Null
    || (Next(v).kind == Punct(OPEN_BRACE) && (Next(s).kind != Punct(CLOSE_BRACE) ==> EntriesExact(ty, s)))
  }

  predicate MapsExact(ty: Scalar, s: bytes)
    requires Elements(s).Some?
    decreases |s|
  {
    var l := Next(Value(s).value);
    MapExact(ty, s) && (l.kind == Punct(COMMA) ==> MapsExact(ty, l.rest))
  }

  predicate EnumsExact(names: seq<bytes>, s: bytes)
    requires Elements(s).Some?
    decreases |s|
  {
    var l := Next(Value(s).value);
    ScalarFits(Enumeration(names), s) && (l.kind == Punct(COMMA) ==> EnumsExact(names, l.rest))
  }

  /**
   The tokens up to the first closing bracket, every second one taken for an element: no bracket is
   opened, no element refused, and in a fixed array there is room.
   */
  predicate Steady(ty: Scalar, room: Option<nat>, element: bool, s: bytes)
    decreases |s|
  {
    var l := Next(s);
    if element && room == Some(0) then false
    else if l.kind == Punct(CLOSE_BRACKET) then true
    else if l.kind == Punct(OPEN_BRACKET) || l.kind == Error || l.kind == Eof then false
    else if element then !Refused(ty, s) && Steady(ty, Less(room), false, l.rest)
    else Steady(ty, room, true, l.rest)
  }

  function Less(room: Option<nat>): Option<nat> {
    if room.Some? && room.value > 0 then Some(room.value - 1) else room
  }

  // ----- Structs, unions and fields -----

  predicate StructExact(fields: seq<Field>, depth: nat, v: bytes)
    requires Value(v).Some?
    decreases |v|, 4
  {
    Next(v).kind == Punct(OPEN_BRACE) && depth <= JSON_MAX_DEPTH && ObjectExact(fields, depth, Next(v).rest)
  }

  predicate ObjectExact(fields: seq<Field>, depth: nat, s: bytes)
    requires Object(s).Some?
    decreases |s|, 3
  {
    Next(s).kind == Punct(CLOSE_BRACE) || MembersExact(fields, depth, s)
  }

  /** Every member that names a field has a value that the field's reader takes exactly. */
  predicate MembersExact(fields: seq<Field>, depth: nat, s: bytes)
    requires Members(s).Some?
    decreases |s|, 2
  {
    var v := MemberValue(s).value;
    var l := Next(Value(v).value);
    var i := FindField(fields, CString(Next(s).text));
    (i >= 0 ==> FieldExact(fields[i], depth, v)) && (l.kind == Punct(COMMA) ==> MembersExact(fields, depth, l.rest))
  }

  /** The variant the tag of an object names, or a negative number. */
  function TaggedVariant(tagKey: bytes, variants: seq<Variant>, s: bytes): (k: int)
    requires Object(s).Some?
    ensures k < |variants|
  {
    match FirstTag(ObjectMembers(s), tagKey)
    case Found(text) => NameIndex(VariantNames(variants), CString(text))
    case _ => -1
  }

  predicate UnionExact(tagKey: bytes, variants: seq<Variant>, depth: nat, v: bytes)
    requires Value(v).Some?
    decreases |v|, 5
  {
    && Next(v).kind == Punct(OPEN_BRACE)
    && var k := TaggedVariant(tagKey, variants, Next(v).rest);
       k >= 0 && StructExact(variants[k].fields, depth + 1, v)
  }

  /** `room` bounds a fixed array. */
  predicate UnionsExact(tagKey: bytes, variants: seq<Variant>, depth: nat, room: Option<nat>, s: bytes)
    requires Elements(s).Some?
    decreases |s|, 6
  {
    var l := Next(Value(s).value);
    && room != Some(0) && UnionExact(tagKey, variants, depth, s)
    && (l.kind == Punct(COMMA) ==> UnionsExact(tagKey, variants, depth, Less(room), l.rest))
  }

  /**
   Every element is taken exactly; but the last one of a dynamic array may be left right before its
   closing brace, which then counts as a separator, and the array's bracket as one more element.
   */
  predicate StructsExact(fields: seq<Field>, depth: nat, room: Option<nat>, s: bytes)
    requires Elements(s).Some?
    decreases |s|, 6
  {
    var l := Next(Value(s).value);
    && room != Some(0)
    && if l.kind == Punct(COMMA) then StructExact(fields, depth, s) && StructsExact(fields, depth, Less(room), l.rest)
       else StructExact(fields, depth, s) || (room.None? && LeftAtBrace(fields, depth, s))
  }

  /** A one-token value is taken whole by a scalar array's reader, whose error is then dropped. */
  predicate FieldExact(f: Field, depth: nat, v: bytes)
    requires Value(v).Some?
    decreases |v|, 7
  {
    var s := Next(v).rest;
    var open := Next(v).kind == Punct(OPEN_BRACKET);
    var empty := Next(s).kind == Punct(CLOSE_BRACKET);
    || (f.nullable && Next(v).kind == Null)
    || match (f.shape, f.item)
       case (Single, Plain(scalar)) => ScalarFits(scalar, v)
       case (Single, Nested(fields)) => StructExact(fields, depth + 1, v)
       case (Single, Union(tagKey, variants)) => UnionExact(tagKey, variants, depth + 1, v)
       case (Single, Map(value)) => MapExact(value, v)
       case (Fixed(size), Plain(scalar)) => open && (empty || Steady(scalar, Some(size), true, s))
       case (Fixed(size), Nested(fields)) => open && (empty || StructsExact(fields, depth + 1, Some(size), s))
       case (Fixed(size), Union(tagKey, variants)) => open && (empty || UnionsExact(tagKey, variants, depth + 1, Some(size), s))
       case (Fixed(_), Map(_)) => false
       case (Dynamic, Plain(scalar)) =>
         || HasText(Next(v).kind)
         || (open && if scalar.Enumeration? then empty || EnumsExact(scalar.names, s) else Steady(scalar, None, true, s))
       case (Dynamic, Nested(fields)) => open && (empty || StructsExact(fields, depth + 1, None, s))
       case (Dynamic, Union(tagKey, variants)) =>
         Next(v).kind == Null || (open && (empty || UnionsExact(tagKey, variants, depth + 1, None, s)))
       case (Dynamic, Map(value)) => Next(v).kind == Null || (open && (empty || MapsExact(value, s)))
  }

  // ----- Objects left behind one of their members -----

  /**
   Who goes on where a struct's reader leaves an object: the loop of an array of structs, to which the
   object's closing brace is a separator; or the loop over the members of the struct around it, by way of a
   nested struct or of a union's variant, to which the rest of the object are members of its own.
   */
  datatype Taker = Array | Struct(fields: seq<Field>, depth: nat) | Variants(fields: seq<Field>, depth: nat)

  /** What is left behind a member suits it. */
  predicate GoesOn(taker: Taker, t: bytes)
    decreases |t|, 0
  {
    var l := Next(t);
    || l.kind == Punct(CLOSE_BRACE)
    || (&& !taker.Array? && l.kind == Punct(COMMA) && Members(l.rest).Some?
        && MembersExact(taker.fields, taker.depth, l.rest))
  }

  /** A struct's reader leaves the object behind one of its members with a result that is no error to the taker. */
  predicate Left(fields: seq<Field>, depth: nat, s: bytes, taker: Taker)
    requires Members(s).Some?
    decreases |s|, 2
  {
    var v := MemberValue(s).value;
    var t := Value(v).value;
    var i := FindField(fields, CString(Next(s).text));
    || (i >= 0 && LeftBehind(fields, fields[i], depth, v, taker) && GoesOn(taker, t))
    || (&& (i >= 0 ==> FieldExact(fields[i], depth, v)) && Next(t).kind == Punct(COMMA)
        && Left(fields, depth, Next(t).rest, taker))
  }

  /**
   The member's value is one token of another kind; or it is an object left inside, the rest of which is
   exact for the members of this very struct, whose end its closing brace is then taken for.
   */
  predicate LeftBehind(fields: seq<Field>, f: Field, depth: nat, v: bytes, taker: Taker)
    requires Value(v).Some?
    decreases |v|, 2
  {
    && !(f.nullable && Next(v).kind == Null)
    && (OtherKind(f, v, taker) || (Next(v).kind == Punct(OPEN_BRACE) && LeftInside(fields, f, depth, Next(v).rest)))
  }

  /** The token's number is passed up, 1 for a string, and -4 for what is no array of structs. */
  predicate OtherKind(f: Field, v: bytes, taker: Taker) {
    && HasText(Next(v).kind)
    && match (f.shape, f.item)
       case (Single, Plain(scalar)) => !ScalarFits(scalar, v) && !Refused(scalar, v) && (taker.Array? ==> Next(v).kind != String)
       case (Dynamic, Nested(_)) => taker.Struct?
       case _ => false
  }

  /** From behind an object's opening brace. */
  predicate LeftInside(fields: seq<Field>, f: Field, depth: nat, s: bytes)
    requires Object(s).Some?
    decreases |s|, 4
  {
    match (f.shape, f.item)
    case (Single, Nested(inner)) =>
      depth < JSON_MAX_DEPTH && Members(s).Some? && Left(inner, depth + 1, s, Struct(fields, depth))
    case (Single, Union(tagKey, variants)) =>
      var k := TaggedVariant(tagKey, variants, s);
      && k >= 0 && depth + 2 <= JSON_MAX_DEPTH && Members(s).Some?
      && Left(variants[k].fields, depth + 2, s, Variants(fields, depth))
    case (Single, Map(value)) => Members(s).Some? && EntriesLeft(value, s, Struct(fields, depth))
    case (Dynamic, Plain(_)) => ObjectExact(fields, depth, s)
    case _ => false
  }

  /** An object for a map's value is taken for the rest of the map, whose reader leaves behind it. */
  predicate EntriesLeft(ty: Scalar, s: bytes, taker: Taker)
    requires Members(s).Some?
    decreases |s|, 2
  {
    var v := MemberValue(s).value;
    var t := Value(v).value;
    || (Next(v).kind == Punct(OPEN_BRACE) && MapExact(ty, v) && GoesOn(taker, t))
    || (HasText(Next(v).kind) && !Refused(ty, v) && Next(t).kind == Punct(COMMA) && EntriesLeft(ty, Next(t).rest, taker))
  }

  /** An element of an array of structs that is left right before its closing brace. */
  predicate LeftAtBrace(fields: seq<Field>, depth: nat, v: bytes)
    requires Value(v).Some?
    decreases |v|, 5
  {
    && Next(v).kind == Punct(OPEN_BRACE) && depth <= JSON_MAX_DEPTH
    && Members(Next(v).rest).Some? && Left(fields, depth, Next(v).rest, Array)
  }

  // ----- Scalars and maps are read so exactly then -----

  lemma {:induction false} PunctuationOnly(s: bytes)
    ensures Next(s).kind.Punct? ==> IsPunct(Next(s).kind.c)
  {
    hide SkipGap;
  }

  lemma {:induction false} ScalarOutcome(ty: Scalar, v: bytes, cur: Datum)
    requires Next(v).kind != Eof && Next(v).kind != Error
    ensures var c := ReadScalar(ty, v, cur).code;
            && (c == OKAY <==> ScalarFits(ty, v)) && (c == FAILED <==> Refused(ty, v)) && c.Ret? && c.r >= -1
  {
    hide Next, Decimal.ReadInt, IsNumeral, NameIndex, CString;
    PunctuationOnly(v);
    if ty.Enumeration? { NameIsFound(ty.names, CString(Next(v).text)); }
  }

  lemma {:induction false} ValueStarts(v: bytes)
    requires Value(v).Some?
    ensures HasText(Next(v).kind) != Opens(Next(v).kind)
  {
    hide Next, Elements, Members;
  }

  /** An entry loop that has gone inside a value does not get back to its own brace. */
  lemma {:induction false} EntriesTrapped(names: Names, ty: Scalar, q: Place, u: bytes, done: seq<(bytes, Datum)>, r: bytes)
    requires Run(names, q, u) == Some(r) && |q.open| > 1 && (q.at == First || q.at == Behind)
    ensures var o := ReadEntries(ty, u, done); o.code == FAILED || Inside(names, o.rest, r)
  {
    hide ReadEntries;
    var t := Innermost(names, q, u, r);
    EntriesLand(names, ty, Place(q.at, [q.open[0]]), u, done, t);
    var o := ReadEntries(ty, u, done);
    if o.code != FAILED { LandsOutside(names, o.rest, t, r, q.open[1..]); }
  }

  /** At the first of some members: its value's end, the place of it seen from the object's end, and the next members. */
  lemma {:induction false} FirstMember(names: Names, s: bytes) returns (v: bytes, t: bytes)
    requires NamedMembers(names, s)
    ensures Members(s).Some? && MemberValue(s) == Some(v) && Value(v) == Some(t) && NamedValue(names, v)
    ensures Allowed(names, Next(s).text) && Run(names, Place(Behind, [Braced]), t) == Members(s)
    ensures Next(t).kind == Punct(COMMA) ==> NamedMembers(names, Next(t).rest)
  {
    hide Next, Value, NamedValue, Allowed;
    v := MemberValue(s).value;
    t := Value(v).value;
    KeyIsMember(names, Place(First, [Braced]), s, Members(s).value);
    if Next(t).kind == Punct(COMMA) {
      var u := Next(t).rest;
      assert Run(names, Place(Behind, [Braced]), t) == Run(names, Place(Item, [Braced]), u);
      MembersAt(names, Item, u);
      FirstIsItem(names, u);
    }
  }

  lemma {:induction false} FirstIsItem(names: Names, s: bytes)
    ensures Next(s).kind == String ==> Run(names, Place(First, [Braced]), s) == Run(names, Place(Item, [Braced]), s)
    ensures Next(s).kind != Punct(CLOSE_BRACKET) ==>
              Run(names, Place(First, [Bracketed]), s) == Run(names, Place(Item, [Bracketed]), s)
  {
    hide Next, Allowed;
  }

  /** At the first of some elements likewise. */
  lemma {:induction false} FirstElement(names: Names, s: bytes) returns (t: bytes)
    requires NamedElements(names, s)
    ensures Elements(s).Some? && NamedValue(names, s)
    ensures Value(s) == Some(t) && Run(names, Place(Behind, [Bracketed]), t) == Elements(s) && |t| > |Elements(s).value|
    ensures Next(t).kind == Punct(COMMA) ==> NamedElements(names, Next(t).rest)
  {
    hide Next, Value, NamedValue, Allowed;
    t := Value(s).value;
    ValueStarts(s);
    ValueAt(names, Place(First, [Bracketed]), s);
    if Next(t).kind == Punct(COMMA) {
      var u := Next(t).rest;
      assert Run(names, Place(Behind, [Bracketed]), t) == Run(names, Place(Item, [Bracketed]), u);
      ElementsAt(names, Item, u);
      ValueStarts(u);
      FirstIsItem(names, u);
    }
  }

  lemma {:induction false} EntriesIff(ty: Scalar, s: bytes, done: seq<(bytes, Datum)>)
    requires Members(s).Some?
    ensures var o := ReadEntries(ty, s, done);
            (o.code == OKAY && o.rest == Members(s).value) <==> EntriesExact(ty, s)
    decreases |s|
  {
    hide Next, ReadScalar, Value, Refused, NamedValue, Run;
    MembersAreNamed(First, s);
    var v, t := FirstMember(ANY, s);
    ValueStarts(v);
    ScalarOutcome(ty, v, Unwritten);
    TokenLands(ANY, v);
    var e := ReadScalar(ty, v, Unwritten);
    var all := done + [(Next(s).text, e.val)];
    if Refused(ty, v) {
    } else if HasText(Next(v).kind) {
      if Next(t).kind == Punct(COMMA) { EntriesIff(ty, Next(t).rest, all); }
    } else {
      var q := PlaceAfter(ANY, e.rest, t, Members(s).value, [Braced]);
      EntriesTrapped(ANY, ty, q, e.rest, all, Members(s).value);
      InsideEnds(ANY, ReadEntries(ty, e.rest, all).rest, Members(s).value);
    }
  }

  lemma {:induction false} InsideEnds(names: Names, u: bytes, r: bytes)
    ensures Inside(names, u, r) ==> u != r
  {
  }

  lemma {:induction false} EntriesReturn(ty: Scalar, s: bytes, done: seq<(bytes, Datum)>)
    ensures ReadEntries(ty, s, done).code == OKAY || ReadEntries(ty, s, done).code == FAILED
    decreases |s|
  {
    hide Next, ReadScalar;
    var l := Next(s);
    if l.kind == Punct(COMMA) {
      TokenMoves(s);
      EntriesReturn(ty, l.rest, done);
    } else if l.kind == String && Next(l.rest).kind == Punct(COLON) {
      TokenMoves(s);
      var e := ReadScalar(ty, Next(l.rest).rest, Unwritten);
      ScalarCodes(ty, Next(l.rest).rest, Unwritten);
      if e.code.r >= 0 { EntriesReturn(ty, e.rest, done + [(l.text, e.val)]); }
    }
  }

  lemma {:induction false} MapIff(ty: Scalar, v: bytes, cur: seq<(bytes, Datum)>)
    requires Value(v).Some?
    ensures var o := ReadMap(ty, v, cur);
            && ((o.code == OKAY && o.rest == Value(v).value) <==> MapExact(ty, v))
            && (o.code == OKAY || o.code == FAILED)
  {
    hide Next, ReadEntries, Elements, Members;
    var s := Next(v).rest;
    if Next(v).kind == Punct(OPEN_BRACE) {
      EntriesReturn(ty, s, cur);
      if Next(s).kind == Punct(CLOSE_BRACE) { EmptyEntries(ty, s, cur); } else { EntriesIff(ty, s, cur); }
    }
  }

  lemma {:induction false} EmptyEntries(ty: Scalar, s: bytes, done: seq<(bytes, Datum)>)
    requires Next(s).kind == Punct(CLOSE_BRACE)
    ensures ReadEntries(ty, s, done) == Out(OKAY, done, Next(s).rest)
  {
    hide Next;
  }

  lemma {:induction false} MapsIff(ty: Scalar, s: bytes, done: seq<Datum>)
    requires Elements(s).Some?
    ensures var o := ReadMaps(ty, s, done);
            (o.code == OKAY && o.rest == Elements(s).value) <==> MapsExact(ty, s)
    decreases |s|
  {
    hide Next, ReadMap, Value, MapExact, Run, NamedValue;
    var r := Elements(s).value;
    ElementsAreNamed(First, s);
    var t := FirstElement(ANY, s);
    ValueStarts(s);
    MapIff(ty, s, []);
    MapLands(ANY, ty, s, []);
    var e := ReadMap(ty, s, []);
    if e.code == OKAY {
      if MapExact(ty, s) {
        if Next(t).kind == Punct(COMMA) { MapsIff(ty, Next(t).rest, done + [MapV(e.val)]); }
      } else {
        MapInside(ty, e.rest, done + [MapV(e.val)], t, r);
      }
    }
  }

  lemma {:induction false} MapInside(ty: Scalar, u: bytes, done: seq<Datum>, t: bytes, r: bytes)
    requires Lands(ANY, u, t) && u != t && Run(ANY, Place(Behind, [Bracketed]), t) == Some(r)
    ensures var l := Next(u);
            && (l.kind == Punct(CLOSE_BRACKET) ==> l.rest != r)
            && (l.kind == Punct(COMMA) ==>
                  var o := ReadMaps(ty, l.rest, done); o.code != OKAY || o.rest != r)
  {
    hide Next, ReadMaps, Run;
    var q := PlaceAfter(ANY, u, t, r, [Bracketed]);
    DeeperInArray(Place(Behind, [Bracketed]), q);
    MapsTrapped(ty, q, u, done, r);
  }

  /** Inside an element only the inner array's loop goes on; in an object the next map is missing. */
  lemma {:induction false} MapsTrapped(ty: Scalar, q: Place, u: bytes, done: seq<Datum>, r: bytes)
    requires Run(ANY, q, u) == Some(r) && InArray(q) && |q.open| > 1 && (q.at == First || q.at == Behind)
    ensures var l := Next(u);
            && (l.kind == Punct(CLOSE_BRACKET) ==> l.rest != r)
            && (l.kind == Punct(COMMA) ==>
                  var o := ReadMaps(ty, l.rest, done); o.code != OKAY || o.rest != r)
  {
    hide Next, ReadMaps, Allowed;
    var l := Next(u);
    if l.kind == Punct(CLOSE_BRACKET) {
      CloserLands(ANY, q, u, r);
      assert q.open[1..] != [];
    } else if l.kind == Punct(COMMA) {
      if q.open[0] == Braced {
        assert Next(l.rest).kind == String;
        NoMapAtString(ty, l.rest, done);
      } else {
        var t := Innermost(ANY, Place(Item, q.open), l.rest, r);
        MapsLand(ANY, ty, Place(Item, [Bracketed]), l.rest, done, t);
        var o := ReadMaps(ty, l.rest, done);
        ArrayIsInside(ANY, o.rest, t);
        if !Fatal(o.code) { LandsOutside(ANY, o.rest, t, r, q.open[1..]); }
      }
    }
  }

  lemma {:induction false} NoMapAtString(ty: Scalar, s: bytes, done: seq<Datum>)
    requires Next(s).kind == String
    ensures ReadMaps(ty, s, done).code == FAILED
  {
    hide Next, ReadEntries;
  }

  lemma {:induction false} EnumsIff(names: seq<bytes>, s: bytes, done: seq<Datum>)
    requires Elements(s).Some?
    ensures ReadEnums(names, s, done).rest == Elements(s).value <==> EnumsExact(names, s)
    ensures EnumsExact(names, s) ==> ReadEnums(names, s, done).code == OKAY
    decreases |s|
  {
    hide Next, ReadScalar, Value, ScalarFits, NamedValue, Run;
    ElementsAreNamed(First, s);
    var t := FirstElement(ANY, s);
    ValueStarts(s);
    TokenLands(ANY, s);
    ScalarOutcome(Enumeration(names), s, IntV(0));
    if ScalarFits(Enumeration(names), s) {
      FitsOneToken(Enumeration(names), s);
      var all := done + [ReadScalar(Enumeration(names), s, IntV(0)).val];
      if Next(t).kind == Punct(COMMA) { EnumsIff(names, Next(t).rest, all); }
    } else {
      assert |Next(s).rest| >= |t|;
    }
  }

  lemma {:induction false} FitsOneToken(ty: Scalar, v: bytes)
    requires ScalarFits(ty, v)
    ensures HasText(Next(v).kind)
  {
    hide Next, Decimal.ReadInt;
  }

  // ----- Arrays of scalars -----

  /** The array's own bracket is the only one open. */
  predicate OneBracket(p: Place) {
    InArray(p) && forall i :: 0 <= i < |p.open| - 1 ==> p.open[i] == Braced
  }

  function LoopOver(room: Option<nat>): Loop {
    if room.Some? then Inline else Scalars
  }

  lemma {:induction false} StaysOneBracket(p: Place, l: Lexeme)
    requires OneBracket(p) && Step(ANY, p, l).Some? && l.kind != Punct(OPEN_BRACKET)
    ensures l.kind == Punct(CLOSE_BRACKET) ==> Step(ANY, p, l).value.open == []
    ensures l.kind != Punct(CLOSE_BRACKET) ==> OneBracket(Step(ANY, p, l).value)
  {
    var q := Step(ANY, p, l).value;
    if l.kind == Punct(OPEN_BRACE) {
      assert q.open == [Braced] + p.open;
      assert forall i :: 0 < i < |q.open| ==> q.open[i] == p.open[i - 1];
    }
  }

  /** Behind an opening bracket the loop is caught in front of the closing one. */
  lemma {:induction false} CaughtInBracket(room: Option<nat>, it: Item, depth: nat, q: Place, u: bytes,
        held: seq<Datum>, done: seq<Datum>, r: bytes)
    requires it.Plain? && (room.None? ==> !it.scalar.Enumeration?)
    requires Run(ANY, q, u) == Some(r) && |q.open| > 1 && q.open[0] == Bracketed
    ensures var o := ReadPairs(LoopOver(room), it, depth, u, held, done); !(o.code == OKAY && o.rest == r) && (room.None? ==> o.rest != r)
    ensures var o := ReadSeparator(LoopOver(room), it, depth, u, held, done); !(o.code == OKAY && o.rest == r) && (room.None? ==> o.rest != r)
  {
    hide ReadPairs, ReadSeparator, InsideArray, Run;
    var t := Innermost(ANY, q, u, r);
    PairsLand(ANY, LoopOver(room), it, depth, Place(q.at, [Bracketed]), u, held, done, t);
    SeparatorLands(ANY, LoopOver(room), it, depth, Place(q.at, [Bracketed]), u, held, done, t);
    NotTheEnd(ReadPairs(LoopOver(room), it, depth, u, held, done).rest, t, r, q.open[1..]);
    NotTheEnd(ReadSeparator(LoopOver(room), it, depth, u, held, done).rest, t, r, q.open[1..]);
  }

  lemma {:induction false} NotTheEnd(u: bytes, t: bytes, r: bytes, open: seq<Frame>)
    requires open != [] && Run(ANY, Place(Behind, open), t) == Some(r)
    ensures LandsInArray(ANY, u, t) ==> u != r
  {
    if LandsInArray(ANY, u, t) {
      ArrayIsInside(ANY, u, t);
      LandsOutside(ANY, u, t, r, open);
    }
  }

  lemma {:induction false} PairsIff(room: Option<nat>, it: Item, depth: nat, p: Place, s: bytes, held: seq<Datum>,
        done: seq<Datum>, r: bytes)
    requires it.Plain? && (room.None? ==> !it.scalar.Enumeration?) && (room.Some? ==> |held| == room.value)
    requires OneBracket(p) && Run(ANY, p, s) == Some(r)
    ensures var o := ReadPairs(LoopOver(room), it, depth, s, held, done);
            && ((o.code == OKAY && o.rest == r) <==> Steady(it.scalar, room, true, s))
            && (room.None? && o.rest == r ==> o.code == OKAY)
    decreases |s|, 1
  {
    hide Next, ReadScalar, ReadSeparator, Refused, Allowed;
    if room != Some(0) {
      ClearedItemIsShaped(it);
      var loop := LoopOver(room);
      var cur := if loop == Inline then held[0] else ClearedItem(it);
      var e := ReadScalar(it.scalar, s, cur);
      var more := if loop == Inline then held[1..] else [];
      var l := Next(s);
      ScalarCodes(it.scalar, s, cur);
      ScalarOutcome(it.scalar, s, cur);
      var q := Step(ANY, p, l).value;
      if l.kind == Punct(OPEN_BRACKET) {
        CaughtInBracket(room, it, depth, q, e.rest, more, done + [e.val], r);
      } else {
        StaysOneBracket(p, l);
        if l.kind != Punct(CLOSE_BRACKET) {
          if e.code.r >= 0 {
            SeparatorIff(Less(room), it, depth, q, e.rest, more, done + [e.val], r);
          } else {
            RestIsFurther(ANY, q, e.rest, r);
          }
        }
      }
    }
  }

  lemma {:induction false} RestIsFurther(names: Names, p: Place, s: bytes, r: bytes)
    requires p.open != [] && Run(names, p, s) == Some(r)
    ensures s != r
  {
  }

  lemma {:induction false} SeparatorIff(room: Option<nat>, it: Item, depth: nat, p: Place, s: bytes,
        held: seq<Datum>, done: seq<Datum>, r: bytes)
    requires it.Plain? && (room.None? ==> !it.scalar.Enumeration?) && (room.Some? ==> |held| == room.value)
    requires OneBracket(p) && Run(ANY, p, s) == Some(r)
    ensures var o := ReadSeparator(LoopOver(room), it, depth, s, held, done);
            && ((o.code == OKAY && o.rest == r) <==> Steady(it.scalar, room, false, s))
            && (room.None? && o.rest == r ==> o.code == OKAY)
    decreases |s|, 0
  {
    hide Next, ReadPairs, Refused, Allowed;
    var l := Next(s);
    var q := Step(ANY, p, l).value;
    if l.kind == Punct(OPEN_BRACKET) {
      CaughtInBracket(room, it, depth, q, l.rest, held, done, r);
    } else {
      StaysOneBracket(p, l);
      if l.kind != Punct(CLOSE_BRACKET) { PairsIff(room, it, depth, q, l.rest, held, done, r); }
    }
  }
}
