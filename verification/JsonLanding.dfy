/**
 Where the readers stop on a well-formed value: at its end or inside it, never behind it. Fixed
 arrays of structs are the exception, see `JsonWitness`.
 */
module JsonLanding {
  import opened Bytes
  import opened JsonLex
  import opened JsonSkip
  import opened JsonTag
  import opened JsonFields
  import opened JsonReading
  import opened JsonInside

  /** No fixed array of structs, at any depth, that one of these keys names. */
  predicate Calm(names: Names, it: Item)
    decreases it
  {
    match it
    case Nested(fields) => CalmFields(names, fields)
    case Union(_, variants) => forall i :: 0 <= i < |variants| ==> CalmVariant(names, variants[i])
    case _ => true
  }

  predicate CalmVariant(names: Names, w: Variant)
    decreases w
  {
    CalmFields(names, w.fields)
  }

  predicate CalmField(names: Names, f: Field)
    decreases f
  {
    Calm(names, f.item) && !(f.shape.Fixed? && f.item.Nested? && (names.Some? ==> f.key in names.value))
  }

  predicate CalmFields(names: Names, fields: seq<Field>)
    decreases fields
  {
    forall i :: 0 <= i < |fields| ==> CalmField(names, fields[i])
  }

  /** The field a key finds is none. */
  predicate CalmUnder(names: Names, f: Field)
  {
    Calm(names, f.item) && !(f.shape.Fixed? && f.item.Nested?)
  }

  /** A result that ends the whole read. */
  predicate Fatal(c: Code) {
    c == FAILED || c == Hang
  }

  /** How a struct's reader ends: with a fatal result, inside, or with 0 at the end. */
  ghost predicate Settles(names: Names, c: Code, u: bytes, r: bytes) {
    Fatal(c) || Inside(names, u, r) || (c == OKAY && u == r)
  }

  // ----- Places -----

  /** The place where a value ended or inside it, with the brackets around the value behind. */
  lemma {:induction false} PlaceAfter(names: Names, u: bytes, t: bytes, r: bytes, open: seq<Frame>) returns (p: Place)
    requires Lands(names, u, t) && Run(names, Place(Behind, open), t) == Some(r) && open != []
    ensures (p.at == First || p.at == Behind) && Run(names, p, u) == Some(r)
    ensures |p.open| >= |open| && p.open[|p.open| - |open|..] == open
    ensures u != t ==> |p.open| > |open| && Run(names, Place(p.at, p.open[..|p.open| - |open|]), u) == Some(t)
    ensures u == t ==> p == Place(Behind, open)
  {
    if u == t {
      p := Place(Behind, open);
    } else {
      var p': Place :| (p'.at == First || p'.at == Behind) && p'.open != [] && Run(names, p', u) == Some(t);
      RunSplits(names, p'.at, p'.open, open, u);
      p := Place(p'.at, p'.open + open);
      assert p.open[|p.open| - |open|..] == open && p.open[..|p.open| - |open|] == p'.open;
      assert p' == Place(p'.at, p'.open);
    }
  }

  /** The innermost bracket on its own. */
  lemma {:induction false} Innermost(names: Names, p: Place, u: bytes, r: bytes) returns (q: bytes)
    requires p.open != [] && Run(names, p, u) == Some(r)
    ensures Run(names, Place(p.at, [p.open[0]]), u) == Some(q) && Run(names, Place(Behind, p.open[1..]), q) == Some(r)
    ensures Lands(names, q, r)
  {
    assert [p.open[0]] + p.open[1..] == p.open && p == Place(p.at, p.open);
    RunSplits(names, p.at, [p.open[0]], p.open[1..], u);
    q := Run(names, Place(p.at, [p.open[0]]), u).value;
    if p.open[1..] != [] { assert Inside(names, q, r); }
  }

  lemma {:induction false} LandsTwice(names: Names, u: bytes, q: bytes, r: bytes, open: seq<Frame>)
    requires Lands(names, u, q) && Run(names, Place(Behind, open), q) == Some(r)
    ensures Lands(names, u, r)
  {
    if open != [] { LandsOutside(names, u, q, r, open); }
  }

  /** Which bracket a value opens. */
  function Opened(k: Kind): Frame {
    if k == Punct(OPEN_BRACE) then Braced else Bracketed
  }

  /** Behind a value's first token. */
  lemma {:induction false} BehindOpener(names: Names, v: bytes)
    requires NamedValue(names, v) && Opens(Next(v).kind)
    ensures Value(v).Some? && Run(names, Place(First, [Opened(Next(v).kind)]), Next(v).rest) == Value(v)
  {
    hide Next;
  }

  /** One token of a value is the whole of it or leads inside. */
  lemma {:induction false} TokenLands(names: Names, v: bytes)
    requires NamedValue(names, v)
    ensures Value(v).Some? && Lands(names, Next(v).rest, Value(v).value)
    ensures HasText(Next(v).kind) ==> Next(v).rest == Value(v).value
    ensures Opens(Next(v).kind) ==> Inside(names, Next(v).rest, Value(v).value)
  {
    hide Next, Elements, Members;
    if Opens(Next(v).kind) { BehindOpener(names, v); }
  }

  // ----- Maps -----

  lemma {:induction false} EntriesLand(names: Names, ty: Scalar, p: Place, s: bytes, done: seq<(bytes, Datum)>, r: bytes)
    requires Run(names, p, s) == Some(r) && |p.open| == 1 && (p.at == First || p.at == Item || p.at == Behind)
    ensures var o := ReadEntries(ty, s, done);
            o.code == FAILED || (o.code == OKAY && p.open[0] == Braced && Lands(names, o.rest, r))
    decreases |s|
  {
    hide Next, ReadScalar, Allowed, NamedValue;
    var l := Next(s);
    assert p.open[1..] == [] && p.open == [p.open[0]];
    if l.kind == Punct(COMMA) {
      EntriesLand(names, ty, Place(Item, p.open), l.rest, done, r);
    } else if l.kind == String && Next(l.rest).kind == Punct(COLON) {
      KeyIsMember(names, p, s, r);
      var v := Next(l.rest).rest;
      var e := ReadScalar(ty, v, Unwritten);
      ScalarCodes(ty, v, Unwritten);
      TokenLands(names, v);
      if e.code.r >= 0 {
        var q := PlaceAfter(names, e.rest, Value(v).value, r, p.open);
        var t := Innermost(names, q, e.rest, r);
        EntriesLand(names, ty, Place(q.at, [q.open[0]]), e.rest, done + [(l.text, e.val)], t);
        var o := ReadEntries(ty, e.rest, done + [(l.text, e.val)]);
        if o.code != FAILED { LandsTwice(names, o.rest, t, r, q.open[1..]); }
      }
    }
  }

  /** A string with a colon behind it is a member's key, and a value follows. */
  lemma {:induction false} KeyIsMember(names: Names, p: Place, s: bytes, r: bytes)
    requires Run(names, p, s) == Some(r) && p.open != []
    requires Next(s).kind == String && Next(Next(s).rest).kind == Punct(COLON)
    ensures p.open[0] == Braced && (p.at == First || p.at == Item) && Allowed(names, Next(s).text)
    ensures var v := Next(Next(s).rest).rest;
            NamedValue(names, v) && Value(v).Some? && Run(names, Place(Behind, p.open), Value(v).value) == Some(r)
  {
    hide Next, Allowed, NamedValue;
    var k := Next(s).rest;
    var v := Next(k).rest;
    var q := Step(names, p, Next(s)).value;
    assert Run(names, q, k) == Some(r);
    assert q.at == Colon;
    assert Run(names, Place(Datum, p.open), v) == Some(r);
    ValueAt(names, Place(Datum, p.open), v);
    NamedIsValue(names, v);
  }

  /** The only negative result of a scalar's reader is -1, for a token it refuses or an error. */
  lemma {:induction false} ScalarCodes(ty: Scalar, s: bytes, cur: Datum)
    ensures var c := ReadScalar(ty, s, cur).code; c.Ret? && c.r >= -1
    ensures Opens(Next(s).kind) ==> ReadScalar(ty, s, cur).code == Ret(TokenNumber(Next(s).kind))
    ensures Next(s).kind.Punct? ==> ReadScalar(ty, s, cur).code == Ret(TokenNumber(Next(s).kind))
    ensures ReadScalar(ty, s, cur).code.r < 0 ==> Next(s).kind in {Kind.Int, Kind.Float, String, Error}
    ensures ReadScalar(ty, s, cur).code.r < 0 && !ty.Enumeration? ==> Next(s).kind != String
    ensures ReadScalar(ty, s, cur).code.r == CLOSE_BRACKET <==> Next(s).kind == Punct(CLOSE_BRACKET)
  {
    hide Next, Decimal.ReadInt, IsNumeral, NameIndex;
  }

  lemma {:induction false} MapLands(names: Names, ty: Scalar, v: bytes, cur: seq<(bytes, Datum)>)
    requires NamedValue(names, v)
    ensures Value(v).Some?
    ensures var o := ReadMap(ty, v, cur); o.code == FAILED || (o.code == OKAY && Lands(names, o.rest, Value(v).value))
  {
    hide Next, ReadEntries, Elements, Members, Run;
    if Next(v).kind == Punct(OPEN_BRACE) {
      BehindOpener(names, v);
      EntriesLand(names, ty, Place(First, [Braced]), Next(v).rest, cur, Value(v).value);
    }
  }

  // ----- Structs -----

  lemma {:induction false} MembersLand(names: Names, fields: seq<Field>, depth: nat, p: Place, s: bytes,
        slots: seq<Slot>, r: bytes)
    requires ShapedSlots(fields, slots) && CalmFields(names, fields)
    requires Run(names, p, s) == Some(r) && |p.open| == 1 && (p.at == First || p.at == Item || p.at == Behind)
    ensures var o := ReadMembers(fields, NO_MASK, depth, s, slots);
            Settles(names, o.code, o.rest, r) && (Fatal(o.code) || p.open[0] == Braced)
    decreases fields, |s|, 4
  {
    hide Next, ReadMember, ShapedSlots, CalmFields, Allowed, NamedValue;
    var l := Next(s);
    assert p.open[1..] == [] && p.open == [p.open[0]];
    if l.kind == Punct(COMMA) {
      MembersLand(names, fields, depth, Place(Item, p.open), l.rest, slots, r);
    } else if l.kind == String && Next(l.rest).kind == Punct(COLON) {
      KeyIsMember(names, p, s, r);
      var v := Next(l.rest).rest;
      var o := ReadMember(fields, NO_MASK, depth, l.text, v, slots);
      MemberLands(names, fields, depth, l.text, v, slots);
      if !Fatal(o.code) {
        if o.code == OKAY {
          var q := PlaceAfter(names, o.rest, Value(v).value, r, p.open);
          MembersLandFrom(names, fields, depth, q, o.rest, o.val, r);
        } else {
          LandsOutside(names, o.rest, Value(v).value, r, p.open);
        }
      }
    }
  }

  /** From deeper inside the loop ends by the innermost closing brace. */
  lemma {:induction false} MembersLandFrom(names: Names, fields: seq<Field>, depth: nat, p: Place, s: bytes,
        slots: seq<Slot>, r: bytes)
    requires ShapedSlots(fields, slots) && CalmFields(names, fields)
    requires Run(names, p, s) == Some(r) && p.open != [] && (p.at == First || p.at == Behind)
    ensures var o := ReadMembers(fields, NO_MASK, depth, s, slots);
            Settles(names, o.code, o.rest, r) && (|p.open| > 1 ==> Fatal(o.code) || Inside(names, o.rest, r))
    decreases fields, |s|, 5
  {
    hide ReadMembers, ShapedSlots, CalmFields;
    var q := Innermost(names, p, s, r);
    MembersLand(names, fields, depth, Place(p.at, [p.open[0]]), s, slots, q);
    var o := ReadMembers(fields, NO_MASK, depth, s, slots);
    if !Fatal(o.code) && |p.open| > 1 { LandsOutside(names, o.rest, q, r, p.open[1..]); }
    if |p.open| == 1 { assert p.open[1..] == [] && q == r; }
  }

  lemma {:induction false} MemberLands(names: Names, fields: seq<Field>, depth: nat, key: bytes, v: bytes, slots: seq<Slot>)
    requires ShapedSlots(fields, slots) && CalmFields(names, fields) && NamedValue(names, v) && Allowed(names, key)
    ensures Value(v).Some?
    ensures var o := ReadMember(fields, NO_MASK, depth, key, v, slots); Fatal(o.code) || Lands(names, o.rest, Value(v).value)
    decreases fields, |v|, 3
  {
    hide Next, ReadField, Elements, Members, Count, NamedValue;
    NamedIsValue(names, v);
    var i := FindField(fields, CString(key));
    if i < 0 {
      CountersFollowGrammar(v);
    } else {
      assert ShapedField(fields[i], slots[i].val) && CalmField(names, fields[i]) && CalmUnder(names, fields[i]);
      if fields[i].nullable && Next(v).kind == Null {
        TokenLands(names, v);
      } else {
        FieldLands(names, fields[i], depth, v, slots[i]);
      }
    }
  }

  lemma {:induction false} StructLands(names: Names, fields: seq<Field>, depth: nat, inArray: bool, v: bytes,
        slots: seq<Slot>)
    requires ShapedSlots(fields, slots) && CalmFields(names, fields) && NamedValue(names, v)
    ensures Value(v).Some?
    ensures var o := ReadStruct(fields, NO_MASK, depth, inArray, v, slots); Settles(names, o.code, o.rest, Value(v).value)
    decreases fields, |v|, 6
  {
    hide Next, ReadMembers, ShapedSlots, CalmFields, Elements, Members, NamedValue;
    NamedIsValue(names, v);
    if Next(v).kind == Punct(OPEN_BRACE) {
      BehindOpener(names, v);
      MembersLand(names, fields, depth, Place(First, [Braced]), Next(v).rest, slots, Value(v).value);
    }
  }

  lemma {:induction false} UnionLands(names: Names, tagKey: bytes, variants: seq<Variant>, depth: nat, v: bytes, cur: Datum)
    requires ShapedItem(Union(tagKey, variants), cur) && Calm(names, Union(tagKey, variants)) && NamedValue(names, v)
    ensures Value(v).Some?
    ensures var o := ReadUnion(tagKey, variants, depth, v, cur);
            Fatal(o.code) || (o.code == OKAY && Next(v).kind == Punct(OPEN_BRACE) && Lands(names, o.rest, Value(v).value))
    decreases variants, |v|, 4
  {
    hide Next, ReadStruct, ShapedSlots, CalmFields, ScanTag, Elements, Members, NamedValue;
    NamedIsValue(names, v);
    if Next(v).kind == Punct(OPEN_BRACE) && ScanTag(ByCounters, Next(v).rest, tagKey).Found? {
      var k := NameIndex(VariantNames(variants), CString(ScanTag(ByCounters, Next(v).rest, tagKey).text));
      if k >= 0 {
        ClearedVariantIsShaped(variants[k]);
        assert CalmVariant(names, variants[k]);
        VariantLands(names, variants[k], depth + 1, v, if cur.tag == k then cur.variant else ClearedVariant(variants[k]));
      }
    }
  }

  lemma {:induction false} VariantLands(names: Names, w: Variant, depth: nat, v: bytes, slots: seq<Slot>)
    requires ShapedVariant(w, slots) && CalmVariant(names, w) && NamedValue(names, v)
    ensures Value(v).Some?
    ensures var o := ReadAsVariant(w, depth, v, slots); Settles(names, o.code, o.rest, Value(v).value)
    decreases w, |v|, 3
  {
    StructLands(names, w.fields, depth, false, v, slots);
  }

  // ----- Arrays -----

  /** The outermost open bracket is an array's. */
  predicate InArray(p: Place) {
    p.open != [] && p.open[|p.open| - 1] == Bracketed
  }

  /** Inside, and that inside an array. */
  ghost predicate InsideArray(names: Names, u: bytes, r: bytes) {
    exists p: Place :: (p.at == First || p.at == Behind) && InArray(p) && Run(names, p, u) == Some(r)
  }

  ghost predicate LandsInArray(names: Names, u: bytes, r: bytes) {
    u == r || InsideArray(names, u, r)
  }

  /** How an array's reader ends. */
  ghost predicate SettlesInArray(names: Names, c: Code, u: bytes, r: bytes) {
    Fatal(c) || InsideArray(names, u, r) || (c == OKAY && u == r)
  }

  lemma {:induction false} ArrayIsInside(names: Names, u: bytes, r: bytes)
    ensures InsideArray(names, u, r) ==> Inside(names, u, r)
    ensures LandsInArray(names, u, r) ==> Lands(names, u, r)
  {
  }

  /** It takes a closing bracket to leave an array. */
  lemma {:induction false} StaysInArray(names: Names, p: Place, l: Lexeme)
    requires InArray(p) && Step(names, p, l).Some? && l.kind != Punct(CLOSE_BRACKET)
    ensures InArray(Step(names, p, l).value)
  {
  }

  lemma {:induction false} DeeperInArray(p: Place, q: Place)
    requires InArray(p) && |q.open| >= |p.open| && q.open[|q.open| - |p.open|..] == p.open
    ensures InArray(q)
  {
    assert q.open[|q.open| - 1] == q.open[|q.open| - |p.open|..][|p.open| - 1];
  }

  /** A closing bracket leads to the end or inside. */
  lemma {:induction false} CloserLands(names: Names, p: Place, s: bytes, r: bytes)
    requires InArray(p) && Run(names, p, s) == Some(r) && Next(s).kind == Punct(CLOSE_BRACKET)
    ensures LandsInArray(names, Next(s).rest, r) && Run(names, Place(Behind, p.open[1..]), Next(s).rest) == Some(r)
  {
    hide Next, Allowed;
    if p.open[1..] != [] { assert InArray(Place(Behind, p.open[1..])); }
  }

  /** An opener or a null is where a value starts. */
  lemma {:induction false} StartsValue(names: Names, p: Place, s: bytes, r: bytes)
    requires p.open != [] && Run(names, p, s) == Some(r) && (Opens(Next(s).kind) || Next(s).kind == Null)
    ensures TakesValue(p) && NamedValue(names, s) && Value(s).Some? && Run(names, Place(Behind, p.open), Value(s).value) == Some(r)
  {
    hide Next, Allowed, NamedValue;
    ValueAt(names, p, s);
    NamedIsValue(names, s);
  }

  /** A value in an array that was left at its end or inside. */
  lemma {:induction false} ElementLeft(names: Names, p: Place, u: bytes, t: bytes, r: bytes) returns (q: Place)
    requires InArray(p) && Lands(names, u, t) && Run(names, Place(Behind, p.open), t) == Some(r)
    ensures InArray(q) && (q.at == First || q.at == Behind) && Run(names, q, u) == Some(r) && InsideArray(names, u, r)
  {
    hide Run;
    q := PlaceAfter(names, u, t, r, p.open);
    DeeperInArray(p, q);
  }

  /** Which loop reads which elements. */
  predicate LoopFits(loop: Loop, it: Item) {
    match loop
    case Scalars => it.Plain? && !it.scalar.Enumeration?
    case Structs => it.Nested?
    case Inline => it.Plain? || it.Union?
  }

  lemma {:induction false} PairsLand(names: Names, loop: Loop, it: Item, depth: nat, p: Place, s: bytes, held: seq<Datum>,
        done: seq<Datum>, r: bytes)
    requires (forall e :: e in held ==> ShapedItem(it, e)) && (forall e :: e in done ==> ShapedItem(it, e))
    requires LoopFits(loop, it) && Calm(names, it) && InArray(p) && Run(names, p, s) == Some(r)
    ensures var o := ReadPairs(loop, it, depth, s, held, done);
            SettlesInArray(names, o.code, o.rest, r) && (loop == Scalars ==> LandsInArray(names, o.rest, r))
    decreases it, |s|, 7
  {
    hide Next, ReadElement, ReadSeparator, ShapedItem, Calm, Run, InsideArray;
    if !(loop == Inline && held == []) {
      ClearedItemIsShaped(it);
      var cur := if loop == Inline then held[0] else ClearedItem(it);
      var e := ReadElement(it, depth, s, cur);
      var more := if loop == Inline then held[1..] else [];
      var q := ElementLands(names, loop, it, depth, p, s, cur, r);
      if e.code.Ret? && e.code.r >= 0 && e.code.r != Stop(loop) {
        SeparatorLands(names, loop, it, depth, q, e.rest, more, done + [e.val], r);
      }
    }
  }

  /** Where the element leaves the loop: at rest if its result ends it, at some place in the array if not. */
  lemma {:induction false} ElementLands(names: Names, loop: Loop, it: Item, depth: nat, p: Place, s: bytes, cur: Datum,
        r: bytes)
    returns (q: Place)
    requires ShapedItem(it, cur) && LoopFits(loop, it) && Calm(names, it) && InArray(p) && Run(names, p, s) == Some(r)
    ensures var e := ReadElement(it, depth, s, cur);
            if e.code.Ret? && e.code.r >= 0 && e.code.r != Stop(loop) then InArray(q) && Run(names, q, e.rest) == Some(r)
            else if e.code == Ret(Stop(loop)) then LandsInArray(names, e.rest, r)
            else (loop != Scalars && Fatal(e.code)) || InsideArray(names, e.rest, r)
    decreases it, |s|, 6
  {
    hide Next, ReadScalar, ReadStruct, ReadUnion, ShapedSlots, CalmFields, CalmVariant, Run, InsideArray;
    q := p;
    match it
    case Plain(scalar) => q := ScalarElementLands(names, scalar, p, s, cur, r);
    case Nested(fields) => q := StructElementLands(names, fields, depth + 1, p, s, cur.slots, r);
    case Union(tagKey, variants) => q := UnionElementLands(names, tagKey, variants, depth + 1, p, s, cur, r);
    case Map(_) =>
  }

  lemma {:induction false} ScalarElementLands(names: Names, ty: Scalar, p: Place, s: bytes, cur: Datum, r: bytes)
    returns (q: Place)
    requires InArray(p) && Run(names, p, s) == Some(r)
    ensures var e := ReadScalar(ty, s, cur);
            if e.code.r >= 0 && e.code.r != CLOSE_BRACKET then InArray(q) && Run(names, q, e.rest) == Some(r)
            else if e.code.r >= 0 then LandsInArray(names, e.rest, r)
            else e.code == FAILED && (ty.Enumeration? || InsideArray(names, e.rest, r))
  {
    hide Next, ReadScalar, Allowed;
    ScalarCodes(ty, s, cur);
    var l := Next(s);
    var e := ReadScalar(ty, s, cur);
    q := p;
    if l.kind == Punct(CLOSE_BRACKET) {
      CloserLands(names, p, s, r);
    } else {
      q := Step(names, p, l).value;
      StaysInArray(names, p, l);
      if e.code.r < 0 && !ty.Enumeration? { assert q == Place(Behind, p.open) && InsideArray(names, e.rest, r); }
    }
  }

  lemma {:induction false} StructElementLands(names: Names, fields: seq<Field>, depth: nat, p: Place, s: bytes,
        slots: seq<Slot>, r: bytes)
    returns (q: Place)
    requires ShapedSlots(fields, slots) && CalmFields(names, fields) && InArray(p) && Run(names, p, s) == Some(r)
    ensures var o := ReadStruct(fields, NO_MASK, depth, true, s, slots);
            if o.code.Ret? && o.code.r >= 0 && o.code.r != 1 then InArray(q) && Run(names, q, o.rest) == Some(r)
            else if o.code == Ret(1) then LandsInArray(names, o.rest, r)
            else Fatal(o.code) || InsideArray(names, o.rest, r)
    decreases fields, |s|, 7
  {
    hide Next, ReadMembers, ShapedSlots, CalmFields, Elements, Members, NamedValue, InsideArray, Inside, Run;
    q := p;
    RunIsToken(names, p, s, r);
    if Next(s).kind == Punct(CLOSE_BRACKET) {
      CloserLands(names, p, s, r);
    } else if Next(s).kind == Punct(OPEN_BRACE) {
      StartsValue(names, p, s, r);
      StructLands(names, fields, depth, true, s, slots);
      var o := ReadStruct(fields, NO_MASK, depth, true, s, slots);
      if !Fatal(o.code) { q := ElementLeft(names, p, o.rest, Value(s).value, r); }
    }
  }

  lemma {:induction false} RunIsToken(names: Names, p: Place, s: bytes, r: bytes)
    requires p.open != [] && Run(names, p, s) == Some(r)
    ensures Next(s).kind != Eof && Next(s).kind != Error
  {
    hide Next, Allowed;
  }

  lemma {:induction false} OnlyObjectsAreUnions(tagKey: bytes, variants: seq<Variant>, depth: nat, s: bytes, cur: Datum)
    requires ShapedItem(Union(tagKey, variants), cur) && Next(s).kind != Eof && Next(s).kind != Punct(OPEN_BRACE)
    ensures ReadUnion(tagKey, variants, depth, s, cur).code == FAILED
  {
    hide Next, ReadVariant, ScanTag;
  }

  lemma {:induction false} UnionElementLands(names: Names, tagKey: bytes, variants: seq<Variant>, depth: nat, p: Place,
        s: bytes, cur: Datum, r: bytes)
    returns (q: Place)
    requires ShapedItem(Union(tagKey, variants), cur) && Calm(names, Union(tagKey, variants))
    requires InArray(p) && Run(names, p, s) == Some(r)
    ensures var o := ReadUnion(tagKey, variants, depth, s, cur);
            || Fatal(o.code)
            || (o.code == OKAY && Next(s).kind == Punct(OPEN_BRACE) && InArray(q) && Run(names, q, o.rest) == Some(r))
    decreases variants, |s|, 5
  {
    hide Next, ReadUnion, ShapedItem, Calm, Elements, Members, NamedValue, InsideArray, Inside, Run;
    q := p;
    RunIsToken(names, p, s, r);
    if Next(s).kind != Punct(OPEN_BRACE) {
      OnlyObjectsAreUnions(tagKey, variants, depth, s, cur);
    } else {
      StartsValue(names, p, s, r);
      UnionLands(names, tagKey, variants, depth, s, cur);
      var o := ReadUnion(tagKey, variants, depth, s, cur);
      if !Fatal(o.code) { q := ElementLeft(names, p, o.rest, Value(s).value, r); }
    }
  }

  lemma {:induction false} SeparatorLands(names: Names, loop: Loop, it: Item, depth: nat, p: Place, s: bytes,
        held: seq<Datum>, done: seq<Datum>, r: bytes)
    requires (forall e :: e in held ==> ShapedItem(it, e)) && (forall e :: e in done ==> ShapedItem(it, e))
    requires LoopFits(loop, it) && Calm(names, it) && InArray(p) && Run(names, p, s) == Some(r)
    ensures var o := ReadSeparator(loop, it, depth, s, held, done);
            SettlesInArray(names, o.code, o.rest, r) && (loop == Scalars ==> LandsInArray(names, o.rest, r))
    decreases it, |s|, 5
  {
    hide Next, ReadPairs, ShapedItem, Calm, Allowed, InsideArray;
    var l := Next(s);
    if l.kind == Punct(CLOSE_BRACKET) {
      CloserLands(names, p, s, r);
    } else {
      StaysInArray(names, p, l);
      PairsLand(names, loop, it, depth, Step(names, p, l).value, l.rest, held, done, r);
    }
  }

  lemma {:induction false} UnionsLand(names: Names, tagKey: bytes, variants: seq<Variant>, depth: nat, p: Place, s: bytes,
        done: seq<Datum>, r: bytes)
    requires Calm(names, Union(tagKey, variants)) && InArray(p) && Run(names, p, s) == Some(r)
    ensures var o := ReadUnions(tagKey, variants, depth, s, done);
            Fatal(o.code) || (o.code == OKAY && LandsInArray(names, o.rest, r))
    decreases variants, |s|, 6
  {
    hide Next, ReadUnion, ShapedItem, Calm, Allowed, InsideArray;
    if Next(s).kind == Punct(CLOSE_BRACKET) {
      CloserLands(names, p, s, r);
    } else {
      ClearedItemIsShaped(Union(tagKey, variants));
      var cur := ClearedItem(Union(tagKey, variants));
      var e := ReadUnion(tagKey, variants, depth + 1, s, cur);
      var q := UnionElementLands(names, tagKey, variants, depth + 1, p, s, cur, r);
      if e.code == OKAY {
        var l := Next(e.rest);
        if l.kind == Punct(CLOSE_BRACKET) {
          CloserLands(names, q, e.rest, r);
        } else if l.kind == Punct(COMMA) {
          StaysInArray(names, q, l);
          UnionsLand(names, tagKey, variants, depth, Step(names, q, l).value, l.rest, done + [e.val], r);
        } else {
          UnionsLand(names, tagKey, variants, depth, q, e.rest, done + [e.val], r);
        }
      }
    }
  }

  lemma {:induction false} EnumsLand(names: Names, words: seq<bytes>, p: Place, s: bytes, done: seq<Datum>, r: bytes)
    requires p.open == [Bracketed] && (p.at == First || p.at == Item || p.at == Behind) && Run(names, p, s) == Some(r)
    ensures var o := ReadEnums(words, s, done); o.code.Ret? && LandsInArray(names, o.rest, r)
    decreases |s|
  {
    hide Next, ReadScalar, Allowed;
    var l := Next(s);
    ScalarCodes(Enumeration(words), s, IntV(0));
    if l.kind == Punct(CLOSE_BRACKET) {
      CloserLands(names, p, s, r);
    } else {
      var q := Step(names, p, l).value;
      StaysInArray(names, p, l);
      if l.kind == Punct(COMMA) || HasText(l.kind) {
        var e := ReadScalar(Enumeration(words), s, IntV(0));
        EnumsLand(names, words, q, l.rest, if l.kind == Punct(COMMA) then done else done + [e.val], r);
      }
      if l.kind != Punct(COMMA) { assert InsideArray(names, l.rest, r); }
    }
  }

  lemma {:induction false} MapsLand(names: Names, ty: Scalar, p: Place, s: bytes, done: seq<Datum>, r: bytes)
    requires InArray(p) && Run(names, p, s) == Some(r)
    ensures var o := ReadMaps(ty, s, done); o.code == FAILED || (o.code == OKAY && LandsInArray(names, o.rest, r))
    decreases |s|
  {
    hide Next, ReadEntries, Elements, Members, NamedValue, Allowed, InsideArray, Inside, Run;
    if Next(s).kind == Punct(CLOSE_BRACKET) {
      CloserLands(names, p, s, r);
    } else if Next(s).kind == Null || Next(s).kind == Punct(OPEN_BRACE) {
      StartsValue(names, p, s, r);
      MapLands(names, ty, s, []);
      var e := ReadMap(ty, s, []);
      if e.code != FAILED {
        var q := ElementLeft(names, p, e.rest, Value(s).value, r);
        var l := Next(e.rest);
        if l.kind == Punct(CLOSE_BRACKET) {
          CloserLands(names, q, e.rest, r);
        } else if l.kind == Punct(COMMA) {
          TokenStays(names, q, e.rest, r);
          MapsLand(names, ty, Step(names, q, l).value, l.rest, done + [MapV(e.val)], r);
        }
      }
    }
  }

  lemma {:induction false} TokenStays(names: Names, p: Place, s: bytes, r: bytes)
    requires InArray(p) && Run(names, p, s) == Some(r) && Next(s).kind != Punct(CLOSE_BRACKET)
    ensures Step(names, p, Next(s)).Some? && InArray(Step(names, p, Next(s)).value)
    ensures Run(names, Step(names, p, Next(s)).value, Next(s).rest) == Some(r)
  {
    hide Next, Allowed;
    StaysInArray(names, p, Next(s));
  }

  // ----- Fields -----

  lemma {:induction false} FieldLands(names: Names, f: Field, depth: nat, v: bytes, cur: Slot)
    requires ShapedField(f, cur.val) && CalmUnder(names, f) && NamedValue(names, v)
    ensures Value(v).Some?
    ensures var o := ReadField(f, NO_MASK, depth, v, cur); Fatal(o.code) || Lands(names, o.rest, Value(v).value)
    decreases f, |v|, 9
  {
    hide Next, ReadSingle, ReadFixed, ReadDynamic, ShapedItem, Calm, Elements, Members, NamedValue, Inside;
    NamedIsValue(names, v);
    match f.shape
    case Single => SingleLands(names, f.item, depth, v, cur.val);
    case Fixed(_) =>
      FixedLands(names, f, depth, v, cur);
      ArrayIsInside(names, ReadFixed(f, depth, v, cur).rest, Value(v).value);
    case Dynamic => DynamicLands(names, f, depth, v, cur);
  }

  lemma {:induction false} SingleLands(names: Names, it: Item, depth: nat, v: bytes, cur: Datum)
    requires ShapedItem(it, cur) && Calm(names, it) && NamedValue(names, v)
    ensures Value(v).Some?
    ensures var o := ReadSingle(it, NO_MASK, depth, v, cur); Fatal(o.code) || Lands(names, o.rest, Value(v).value)
    decreases it, |v|, 8
  {
    hide Next, ReadScalar, ReadStruct, ReadUnion, ReadMap, ShapedSlots, CalmFields, CalmVariant, Elements, Members,
      NamedValue, Inside;
    match it
    case Plain(_) => TokenLands(names, v);
    case Nested(fields) => StructLands(names, fields, depth + 1, false, v, cur.slots);
    case Union(tagKey, variants) => UnionLands(names, tagKey, variants, depth + 1, v, cur);
    case Map(value) => MapLands(names, value, v, cur.entries);
  }

  /** Behind the opening bracket of a value. */
  lemma {:induction false} BehindBracket(names: Names, v: bytes)
    requires NamedValue(names, v) && Next(v).kind == Punct(OPEN_BRACKET)
    ensures var s := Next(v).rest;
            && Run(names, Place(First, [Bracketed]), s) == Value(v)
            && Value(v) == if Next(s).kind == Punct(CLOSE_BRACKET) then Some(Next(s).rest) else Elements(s)
  {
    hide Next, Elements, Members, Run;
  }

  /** Behind its opening brace. */
  lemma {:induction false} BehindBrace(names: Names, v: bytes)
    requires NamedValue(names, v) && Next(v).kind == Punct(OPEN_BRACE)
    ensures var s := Next(v).rest; NamedObject(names, s) && Object(s).Some? && Object(s) == Value(v)
    ensures Next(Next(v).rest).kind != Punct(CLOSE_BRACE) ==> Members(Next(v).rest) == Value(v)
  {
    hide Next, Elements, Members, Run;
  }

  lemma {:induction false} FixedLands(names: Names, f: Field, depth: nat, v: bytes, cur: Slot)
    requires f.shape.Fixed? && ShapedField(f, cur.val) && CalmUnder(names, f) && NamedValue(names, v)
    ensures Value(v).Some?
    ensures var o := ReadFixed(f, depth, v, cur); SettlesInArray(names, o.code, o.rest, Value(v).value)
    decreases f, |v|, 8
  {
    hide Next, ReadPairs, ShapedItem, Calm, Value, NamedValue, InsideArray, Run;
    NamedIsValue(names, v);
    if Next(v).kind == Punct(OPEN_BRACKET) && !f.item.Map? {
      BehindBracket(names, v);
      if Next(Next(v).rest).kind != Punct(CLOSE_BRACKET) {
        PairsLand(names, Inline, f.item, depth, Place(First, [Bracketed]), Next(v).rest, cur.val.elems, [], Value(v).value);
      }
    }
  }

  /** An array lands in itself; anything else is one token, or its reader's error is not fatal. */
  lemma {:induction false} DynamicLands(names: Names, f: Field, depth: nat, v: bytes, cur: Slot)
    requires f.shape.Dynamic? && cur.val.ArrV? && Calm(names, f.item) && NamedValue(names, v)
    ensures Value(v).Some?
    ensures var o := ReadDynamic(f, depth, v, cur);
            && (Fatal(o.code) || Lands(names, o.rest, Value(v).value))
            && (Next(v).kind == Punct(OPEN_BRACKET) ==> SettlesInArray(names, o.code, o.rest, Value(v).value))
    decreases f, |v|, 8
  {
    hide Next, ReadPairs, ReadUnions, ReadMaps, ReadEnumArray, Calm, Value, NamedValue, Inside, InsideArray, Run;
    TokenLands(names, v);
    if f.item.Plain? {
      ScalarArrayLands(names, f.item, depth, v);
    } else if Next(v).kind == Punct(OPEN_BRACKET) {
      ArrayLands(names, f.item, depth, v);
    }
    ArrayIsInside(names, ReadDynamic(f, depth, v, cur).rest, Value(v).value);
  }

  lemma {:induction false} ArrayLands(names: Names, it: Item, depth: nat, v: bytes)
    requires !it.Plain? && Calm(names, it) && NamedValue(names, v) && Next(v).kind == Punct(OPEN_BRACKET)
    ensures Value(v).Some?
    ensures var o := ReadArray(it, depth, Next(v).rest); SettlesInArray(names, o.code, o.rest, Value(v).value)
    decreases it, |v|, 8
  {
    hide Next, ReadPairs, ReadUnions, ReadMaps, Calm, Value, NamedValue, InsideArray, Run;
    NamedIsValue(names, v);
    BehindBracket(names, v);
    var p := Place(First, [Bracketed]);
    var s := Next(v).rest;
    var r := Value(v).value;
    match it
    case Nested(_) => if Next(s).kind != Punct(CLOSE_BRACKET) { PairsLand(names, Structs, it, depth, p, s, [], [], r); }
    case Union(tagKey, variants) => UnionsLand(names, tagKey, variants, depth, p, s, [], r);
    case Map(value) => MapsLand(names, value, p, s, [], r);
  }

  lemma {:induction false} ScalarArrayLands(names: Names, it: Item, depth: nat, v: bytes)
    requires it.Plain? && NamedValue(names, v)
    ensures Value(v).Some?
    ensures var open := Next(v).kind == Punct(OPEN_BRACKET);
            match it.scalar
            case Enumeration(words) =>
              var o := ReadEnumArray(words, v);
              o.code.Ret? && if open then LandsInArray(names, o.rest, Value(v).value) else o.rest == Next(v).rest
            case _ =>
              open ==>
                var o := ReadPairs(Scalars, it, depth, Next(v).rest, [], []);
                o.code.Ret? && LandsInArray(names, o.rest, Value(v).value)
    decreases it, |v|, 8
  {
    hide Next, ReadPairs, ReadEnums, Value, NamedValue, InsideArray, Run;
    NamedIsValue(names, v);
    if Next(v).kind == Punct(OPEN_BRACKET) {
      BehindBracket(names, v);
      var p := Place(First, [Bracketed]);
      match it.scalar
      case Enumeration(words) => EnumsLand(names, words, p, Next(v).rest, [], Value(v).value);
      case _ =>
        PairsLand(names, Scalars, it, depth, p, Next(v).rest, [], [], Value(v).value);
        PairsReturn(it.scalar, depth, Next(v).rest, []);
    }
  }

  lemma {:induction false} PairsReturn(ty: Scalar, depth: nat, s: bytes, done: seq<Datum>)
    ensures ReadPairs(Scalars, Plain(ty), depth, s, [], done).code.Ret?
    decreases |s|
  {
    hide Next, ReadScalar;
    ClearedItemIsShaped(Plain(ty));
    var e := ReadElement(Plain(ty), depth, s, ClearedItem(Plain(ty)));
    if Next(e.rest).kind != Error && Next(e.rest).kind != Eof {
      TokenMoves(e.rest);
      PairsReturn(ty, depth, Next(e.rest).rest, done + [e.val]);
    }
  }
}
