/** Documents on which the JSON readers do not do what one expects, read token by token. */
module JsonWitness {
  import opened Bytes
  import opened JsonString
  import opened JsonLex
  import opened JsonSkip
  import opened JsonTag
  import opened JsonFields
  import opened JsonReading
  import opened JsonLanding
  import opened JsonExact
  import opened JsonWhole
  import opened JsonSelect
  import Decimal

  // ----- Tokens -----

  /** The `k`th token of a text that holds `t[k]` from there on. */
  predicate Spells(t: seq<bytes>, k: nat, kind: Kind, text: bytes)
    requires k + 1 < |t|
  {
    Next(t[k]) == Lexeme(kind, text, t[k + 1])
  }

  lemma {:induction false} PunctToken(c: byte, t: bytes)
    requires IsPunct(c)
    ensures Next([c] + t) == Lexeme(Punct(c), [], t)
  {
    var s := [c] + t;
    assert SkipGap(s) == s && s[1..] == t;
  }

  lemma {:induction false} KeyToken(c: byte, t: bytes)
    requires IsAlpha(c)
    ensures Next([QUOTE, c, QUOTE] + t) == Lexeme(String, [c], t)
  {
    hide StringBody, ParseString;
    var s := [QUOTE, c, QUOTE] + t;
    assert SkipGap(s) == s;
    assert Escape([c]) == [c] + Escape([]);
    assert [QUOTE] + Escape([c]) + [QUOTE] == [QUOTE, c, QUOTE];
    QuotedRoundTrips([c], t);
  }

  lemma {:induction false} NumberToken(v: nat, t: bytes)
    requires t != [] && IsPunct(t[0])
    ensures Next(Decimal.Digits(v) + t) == Lexeme(Kind.Int, Decimal.Digits(v), t)
  {
    hide Decimal.Digits;
    assert Decimal.Text(v) == Decimal.Digits(v);
    Decimal.TextIsOneToken(v, t);
  }

  lemma {:induction false} NullToken(t: bytes)
    requires t != [] && IsPunct(t[0])
    ensures Next(NULL + t) == Lexeme(Null, NULL, t)
  {
    var s := NULL + t;
    assert SkipGap(s) == s && s[4..] == t;
  }

  lemma {:induction false} NoBraceAhead(s: bytes)
    requires Next(s).kind == String
    ensures var t := SkipGap(s); !(t != [] && t[0] == CLOSE_BRACE)
  {
  }

  lemma {:induction false} OneLetter(c: byte)
    requires c != 0
    ensures CString([c]) == [c]
  {
    assert CString([]) == [];
    assert [c][1..] == [];
  }

  const A: byte := 97
  const B: byte := 98
  const F: byte := 102
  const X: byte := 120
  const Y: byte := 121

  function IntField(key: byte, bits: nat, shape: Shape, index: int): Field {
    Field([key], Plain(Integer(bits, true)), shape, false, false, index)
  }

  // ----- A selected field that a full read does not reach -----

  /** `{"x":{},"b":5}`. */
  const OBJECT_FOR_ARRAY: bytes := [123, 34, 120, 34, 58, 123, 125] + REST_OF_OBJECT
  const REST_OF_OBJECT: bytes := [44, 34, 98, 34, 58, 53, 125]

  /** `{"x":{}` */
  predicate SpellsObject(t: seq<bytes>) {
    && |t| == 6
    && Spells(t, 0, Punct(OPEN_BRACE), []) && Spells(t, 1, String, [X]) && Spells(t, 2, Punct(COLON), [])
    && Spells(t, 3, Punct(OPEN_BRACE), []) && Spells(t, 4, Punct(CLOSE_BRACE), [])
  }

  /** `,"b":5}` */
  predicate SpellsRest(u: seq<bytes>) {
    && |u| == 6
    && Spells(u, 0, Punct(COMMA), []) && Spells(u, 1, String, [B]) && Spells(u, 2, Punct(COLON), [])
    && Spells(u, 3, Kind.Int, Decimal.Digits(5)) && Spells(u, 4, Punct(CLOSE_BRACE), [])
  }

  lemma {:induction false} ObjectTokens(r: bytes) returns (t: seq<bytes>)
    ensures SpellsObject(t) && t[0] == [123, 34, 120, 34, 58, 123, 125] + r && t[5] == r
  {
    hide Next;
    var t4 := [CLOSE_BRACE] + r;
    var t3 := [OPEN_BRACE] + t4;
    var t2 := [COLON] + t3;
    var t1 := [QUOTE, X, QUOTE] + t2;
    t := [[OPEN_BRACE] + t1, t1, t2, t3, t4, r];
    PunctToken(OPEN_BRACE, t1);
    KeyToken(X, t2);
    PunctToken(COLON, t3);
    PunctToken(OPEN_BRACE, t4);
    PunctToken(CLOSE_BRACE, r);
    assert t[0] == [123, 34, 120, 34, 58, 123, 125] + r;
  }

  lemma {:induction false} RestTokens() returns (u: seq<bytes>)
    ensures SpellsRest(u) && u[0] == REST_OF_OBJECT && u[5] == []
  {
    hide Next;
    var u4: bytes := [CLOSE_BRACE] + [];
    var u3 := Decimal.Digits(5) + u4;
    var u2 := [COLON] + u3;
    var u1 := [QUOTE, B, QUOTE] + u2;
    u := [[COMMA] + u1, u1, u2, u3, u4, []];
    PunctToken(COMMA, u1);
    KeyToken(B, u2);
    PunctToken(COLON, u3);
    NumberToken(5, u4);
    PunctToken(CLOSE_BRACE, []);
    assert u[0] == REST_OF_OBJECT;
  }

  /** An array `x` and a number `b`: a full read leaves `b` cleared, a read of `b` alone gives 5. Both report success. */
  lemma {:induction false} FullReadMissesSelectedField()
    ensures var fields := [IntField(X, 32, Dynamic, 0), IntField(B, 32, Single, 1)];
            var cleared := ClearedSlots(fields);
            && ShapedSlots(fields, cleared)
            && ReadStruct(fields, NO_MASK, 0, false, OBJECT_FOR_ARRAY, cleared)
               == Out(OKAY, [Slot(false, ArrV([])), Slot(false, IntV(0))], REST_OF_OBJECT)
            && ReadStruct(fields, Mask(Some([2]), []), 0, false, OBJECT_FOR_ARRAY, cleared)
               == Out(OKAY, [Slot(false, ArrV([])), Slot(false, IntV(5))], [])
  {
    hide Next, ReadMembers, Selected, Decimal.ReadInt, Decimal.Digits;
    var fields := [IntField(X, 32, Dynamic, 0), IntField(B, 32, Single, 1)];
    var mask := Mask(Some([2]), []);
    var cleared := ClearedSlots(fields);
    ClearedIsShaped(fields);
    var u := RestTokens();
    var t := ObjectTokens(u[0]);
    OneLetter(X);
    SecondBit();
    assert FindField(fields, [X]) == 0;
    ObjectForArrayEndsTheStruct(fields, mask, 0, t[1], cleared);
    assert cleared == [Slot(false, ArrV([])), Slot(false, IntV(0))];
    assert cleared[0 := Slot(false, ArrV([]))] == cleared;
    assert ReadMembers(fields, NO_MASK, 0, t[1], cleared) == Out(OKAY, cleared, t[5]);
    assert cleared[1 := Slot(false, IntV(5))] == [Slot(false, ArrV([])), Slot(false, IntV(5))];
    RestOfObject(fields, mask, u, cleared);
    assert ReadStruct(fields, NO_MASK, 0, false, t[0], cleared) == ReadMembers(fields, NO_MASK, 0, t[1], cleared);
    assert ReadStruct(fields, mask, 0, false, t[0], cleared) == ReadMembers(fields, mask, 0, t[1], cleared);
  }

  lemma {:induction false} SecondBit()
    ensures var mask := Mask(Some([2]), []); !Selected(mask, 0) && Selected(mask, 1)
  {
    assert Pow2(0) == 1 && Pow2(1) == 2;
  }

  lemma {:induction false} RestOfObject(fields: seq<Field>, mask: Mask, u: seq<bytes>, slots: seq<Slot>)
    requires fields == [IntField(X, 32, Dynamic, 0), IntField(B, 32, Single, 1)] && ShapedSlots(fields, slots)
    requires Selected(mask, 1) && mask.nested == [] && slots[1] == Slot(false, IntV(0)) && SpellsRest(u)
    ensures ReadMembers(fields, mask, 0, u[0], slots) == Out(OKAY, slots[1 := Slot(false, IntV(5))], u[5])
  {
    hide Next, Selected, Decimal.Digits, ReadMember;
    NoBraceAhead(u[1]);
    NumberIsRead(fields, mask, u[1], u[3], u[4], slots);
  }

  lemma {:induction false} NumberIsRead(fields: seq<Field>, mask: Mask, s: bytes, v: bytes, t: bytes, slots: seq<Slot>)
    requires fields == [IntField(X, 32, Dynamic, 0), IntField(B, 32, Single, 1)] && ShapedSlots(fields, slots)
    requires Selected(mask, 1) && mask.nested == [] && slots[1] == Slot(false, IntV(0))
    requires MemberValue(s) == Some(v) && Next(s).text == [B] && Next(v) == Lexeme(Kind.Int, Decimal.Digits(5), t)
    ensures ShapedSlots(fields, slots[1 := Slot(false, IntV(5))])
    ensures ReadMembers(fields, mask, 0, s, slots) == ReadMembers(fields, mask, 0, t, slots[1 := Slot(false, IntV(5))])
  {
    hide Next, Selected, Decimal.ReadInt, Decimal.Digits;
    OneLetter(B);
    assert FindField(fields, [B]) == 1;
    assert Decimal.Text(5) == Decimal.Digits(5);
    Decimal.ReadsBack(32, true, 5);
    var f := fields[1];
    assert ReadScalar(f.item.scalar, v, IntV(0)) == Out(OKAY, IntV(5), t);
    assert ReadField(f, NO_MASK, 0, v, Slot(false, IntV(0))) == Out(OKAY, Slot(false, IntV(5)), t);
    assert ReadMember(fields, mask, 0, [B], v, slots) == Out(OKAY, slots[1 := Slot(false, IntV(5))], t);
  }

  // ----- Reads that agree and end apart -----

  /** `{"b":5,"x":{}}`. */
  const OBJECT_LAST: bytes := [123, 34, 98, 34, 58, 53, 44] + LAST_MEMBER
  const LAST_MEMBER: bytes := [34, 120, 34, 58, 123, 125, 125]

  /** `{"b":5,` */
  predicate SpellsNumber(t: seq<bytes>) {
    && |t| == 6
    && Spells(t, 0, Punct(OPEN_BRACE), []) && Spells(t, 1, String, [B]) && Spells(t, 2, Punct(COLON), [])
    && Spells(t, 3, Kind.Int, Decimal.Digits(5)) && Spells(t, 4, Punct(COMMA), [])
  }

  /** `"x":{}}` */
  predicate SpellsLast(u: seq<bytes>) {
    && |u| == 6
    && Spells(u, 0, String, [X]) && Spells(u, 1, Punct(COLON), []) && Spells(u, 2, Punct(OPEN_BRACE), [])
    && Spells(u, 3, Punct(CLOSE_BRACE), []) && Spells(u, 4, Punct(CLOSE_BRACE), [])
  }

  lemma {:induction false} NumberMemberTokens(r: bytes) returns (t: seq<bytes>)
    ensures SpellsNumber(t) && t[0] == [123, 34, 98, 34, 58, 53, 44] + r && t[5] == r
  {
    hide Next;
    var t4 := [COMMA] + r;
    var t3 := Decimal.Digits(5) + t4;
    var t2 := [COLON] + t3;
    var t1 := [QUOTE, B, QUOTE] + t2;
    t := [[OPEN_BRACE] + t1, t1, t2, t3, t4, r];
    PunctToken(OPEN_BRACE, t1);
    KeyToken(B, t2);
    PunctToken(COLON, t3);
    NumberToken(5, t4);
    PunctToken(COMMA, r);
    assert t[0] == [123, 34, 98, 34, 58, 53, 44] + r;
  }

  lemma {:induction false} LastMemberTokens() returns (u: seq<bytes>)
    ensures SpellsLast(u) && u[0] == LAST_MEMBER && u[4] == [CLOSE_BRACE] && u[5] == []
  {
    hide Next;
    var u4: bytes := [CLOSE_BRACE] + [];
    var u3 := [CLOSE_BRACE] + u4;
    var u2 := [OPEN_BRACE] + u3;
    var u1 := [COLON] + u2;
    u := [[QUOTE, X, QUOTE] + u1, u1, u2, u3, u4, []];
    KeyToken(X, u1);
    PunctToken(COLON, u2);
    PunctToken(OPEN_BRACE, u3);
    PunctToken(CLOSE_BRACE, u4);
    PunctToken(CLOSE_BRACE, []);
    assert u[0] == LAST_MEMBER;
  }

  /** Results and fields agree, though only the read that does not select `x` reaches the object's end. */
  lemma {:induction false} ReadsEndApart()
    ensures var fields := [IntField(X, 32, Dynamic, 0), IntField(B, 32, Single, 1)];
            var cleared := ClearedSlots(fields); var read := [Slot(false, ArrV([])), Slot(false, IntV(5))];
            && ShapedSlots(fields, cleared)
            && ReadStruct(fields, NO_MASK, 0, false, OBJECT_LAST, cleared) == Out(OKAY, read, [CLOSE_BRACE])
            && ReadStruct(fields, Mask(Some([2]), []), 0, false, OBJECT_LAST, cleared) == Out(OKAY, read, [])
  {
    hide Next, ReadMembers, Selected, Decimal.ReadInt, Decimal.Digits;
    var fields := [IntField(X, 32, Dynamic, 0), IntField(B, 32, Single, 1)];
    var mask := Mask(Some([2]), []);
    var cleared := ClearedSlots(fields);
    ClearedIsShaped(fields);
    var u := LastMemberTokens();
    var t := NumberMemberTokens(u[0]);
    OneLetter(X);
    SecondBit();
    AllSelected(1);
    assert FindField(fields, [X]) == 0;
    assert cleared == [Slot(false, ArrV([])), Slot(false, IntV(0))];
    var read := [Slot(false, ArrV([])), Slot(false, IntV(5))];
    assert cleared[1 := Slot(false, IntV(5))] == read && read[0 := Slot(false, ArrV([]))] == read;
    FirstIsNumber(fields, NO_MASK, t, cleared);
    FirstIsNumber(fields, mask, t, cleared);
    ObjectForArrayEndsTheStruct(fields, mask, 0, u[0], read);
    EmptyIsWhole(fields, mask, 0, u[4], read);
    assert ReadStruct(fields, NO_MASK, 0, false, t[0], cleared) == ReadMembers(fields, NO_MASK, 0, t[1], cleared);
    assert ReadStruct(fields, mask, 0, false, t[0], cleared) == ReadMembers(fields, mask, 0, t[1], cleared);
  }

  lemma {:induction false} FirstIsNumber(fields: seq<Field>, mask: Mask, t: seq<bytes>, slots: seq<Slot>)
    requires fields == [IntField(X, 32, Dynamic, 0), IntField(B, 32, Single, 1)] && ShapedSlots(fields, slots)
    requires Selected(mask, 1) && mask.nested == [] && slots[1] == Slot(false, IntV(0))
    requires SpellsNumber(t) && Next(t[5]).kind == String
    ensures ShapedSlots(fields, slots[1 := Slot(false, IntV(5))])
    ensures ReadMembers(fields, mask, 0, t[1], slots) == ReadMembers(fields, mask, 0, t[5], slots[1 := Slot(false, IntV(5))])
  {
    hide Next, Selected, Decimal.Digits, ReadMember;
    NumberIsRead(fields, mask, t[1], t[3], t[4], slots);
    NoBraceAhead(t[5]);
  }

  // ----- A dynamic array of structs that gains an element -----

  /** `{"x":[{"a":null}]}`. */
  const NULL_IN_ARRAY: bytes := [123, 34, 120, 34, 58, 91] + NULL_ELEMENT
  const NULL_ELEMENT: bytes := [123, 34, 97, 34, 58, 110, 117, 108, 108, 125, 93, 125]

  /** `{"x":[` */
  predicate SpellsArray(t: seq<bytes>) {
    && |t| == 5 && Spells(t, 0, Punct(OPEN_BRACE), []) && Spells(t, 1, String, [X]) && Spells(t, 2, Punct(COLON), [])
    && Spells(t, 3, Punct(OPEN_BRACKET), [])
  }

  /** `{"a":null}]}` */
  predicate SpellsElement(t: seq<bytes>) {
    && |t| == 8 && Spells(t, 0, Punct(OPEN_BRACE), []) && Spells(t, 1, String, [A]) && Spells(t, 2, Punct(COLON), [])
    && Spells(t, 3, Null, NULL) && Spells(t, 4, Punct(CLOSE_BRACE), []) && Spells(t, 5, Punct(CLOSE_BRACKET), [])
    && Spells(t, 6, Punct(CLOSE_BRACE), [])
  }

  lemma {:induction false} ArrayTokens(r: bytes) returns (t: seq<bytes>)
    ensures SpellsArray(t) && t[0] == [123, 34, 120, 34, 58, 91] + r && t[4] == r
  {
    hide Next;
    var t3 := [OPEN_BRACKET] + r;
    var t2 := [COLON] + t3;
    var t1 := [QUOTE, X, QUOTE] + t2;
    t := [[OPEN_BRACE] + t1, t1, t2, t3, r];
    PunctToken(OPEN_BRACE, t1);
    KeyToken(X, t2);
    PunctToken(COLON, t3);
    PunctToken(OPEN_BRACKET, r);
    assert t[0] == [123, 34, 120, 34, 58, 91] + r;
  }

  lemma {:induction false} ElementTokens() returns (t: seq<bytes>)
    ensures SpellsElement(t) && t[0] == NULL_ELEMENT && t[7] == []
  {
    hide Next;
    var t6: bytes := [CLOSE_BRACE] + [];
    var t5 := [CLOSE_BRACKET] + t6;
    var t4 := [CLOSE_BRACE] + t5;
    var t3 := NULL + t4;
    var t2 := [COLON] + t3;
    var t1 := [QUOTE, A, QUOTE] + t2;
    t := [[OPEN_BRACE] + t1, t1, t2, t3, t4, t5, t6, []];
    PunctToken(OPEN_BRACE, t1);
    KeyToken(A, t2);
    PunctToken(COLON, t3);
    NullToken(t4);
    PunctToken(CLOSE_BRACE, t5);
    PunctToken(CLOSE_BRACKET, t6);
    PunctToken(CLOSE_BRACE, []);
    assert t[0] == NULL_ELEMENT;
  }

  function Points(): Item {
    Nested([IntField(A, 32, Single, 0)])
  }

  const BLANK := StructV([Slot(false, IntV(0))])

  lemma {:induction false} BlankPoint()
    ensures ClearedItem(Points()) == BLANK && ShapedItem(Points(), BLANK)
  {
    var f := IntField(A, 32, Single, 0);
    assert ClearedSlots([f]) == [Slot(false, IntV(0))];
  }

  /** `null` is no number: the struct's reader passes the token up and stops before the brace. */
  lemma {:induction false} NullStopsElement(e: seq<bytes>)
    requires SpellsElement(e)
    ensures ShapedItem(Points(), BLANK) && ReadElement(Points(), 0, e[0], BLANK) == Out(Ret(6), BLANK, e[4])
  {
    hide Next, Selected;
    var f := IntField(A, 32, Single, 0);
    var slots := [Slot(false, IntV(0))];
    OneLetter(A);
    assert FindField([f], [A]) == 0;
    AllSelected(0);
    assert ReadField(f, NO_MASK, 1, e[3], slots[0]) == Out(Ret(6), slots[0], e[4]);
    assert slots[0 := slots[0]] == slots;
    assert ReadMember([f], NO_MASK, 1, [A], e[3], slots) == Out(Ret(6), slots, e[4]);
    assert ReadMembers([f], NO_MASK, 1, e[1], slots) == Out(Ret(6), slots, e[4]);
  }

  lemma {:induction false} ElementIsLeft(e: seq<bytes>)
    requires SpellsElement(e)
    ensures Value(e[0]) == Some(e[5]) && LeftAtBrace(Points().fields, 1, e[0]) && Elements(e[0]) == Some(e[6])
  {
    hide Next, FieldExact;
    var f := IntField(A, 32, Single, 0);
    OneLetter(A);
    assert FindField([f], [A]) == 0;
    assert Value(e[3]) == Some(e[4]) && Members(e[1]) == Some(e[5]);
    assert OtherKind(f, e[3], Array);
    assert LeftBehind([f], f, 1, e[3], Array) && GoesOn(Array, e[4]);
    assert MemberValue(e[1]) == Some(e[3]);
    assert Left([f], 1, e[1], Array);
  }

  /** The brace counts as a separator and the bracket as an element: the array has a second, blank one. */
  lemma {:induction false} BracketAddsElement()
    ensures var fields := [Field([X], Points(), Dynamic, false, false, 0)]; var cleared := ClearedSlots(fields);
            && ShapedSlots(fields, cleared) && Object(Next(NULL_IN_ARRAY).rest).Some?
            && ObjectExact(fields, 0, Next(NULL_IN_ARRAY).rest)
            && ReadStruct(fields, NO_MASK, 0, false, NULL_IN_ARRAY, cleared)
               == Out(OKAY, [Slot(false, ArrV([BLANK, BLANK]))], [])
  {
    hide Next, ReadMembers, ObjectExact, Points, Value;
    var fields := [Field([X], Points(), Dynamic, false, false, 0)];
    ClearedIsShaped(fields);
    var e := ElementTokens();
    var t := ArrayTokens(e[0]);
    assert t[0] == NULL_IN_ARRAY;
    ArrayIsExact(fields, t, e);
    ElementGained(fields, t, e);
  }

  lemma {:induction false} ArrayIsExact(fields: seq<Field>, t: seq<bytes>, e: seq<bytes>)
    requires fields == [Field([X], Points(), Dynamic, false, false, 0)]
    requires SpellsArray(t) && SpellsElement(e) && t[4] == e[0]
    ensures Object(t[1]) == Some(e[7]) && ObjectExact(fields, 0, t[1])
  {
    hide Next, LeftAtBrace, Elements, StructExact, Points, SpellsElement;
    ElementIsLeft(e);
    LastTokens(e);
    OneLetter(X);
    assert FindField(fields, [X]) == 0;
    assert Value(t[3]) == Some(e[6]) && MemberValue(t[1]) == Some(t[3]);
    assert StructsExact(Points().fields, 1, None, e[0]);
    assert FieldExact(fields[0], 0, t[3]);
  }

  lemma {:induction false} LastTokens(e: seq<bytes>)
    requires SpellsElement(e)
    ensures |e| == 8 && Next(e[0]).kind == Punct(OPEN_BRACE) && Next(e[5]).kind == Punct(CLOSE_BRACKET) && Points().Nested?
    ensures Next(e[6]) == Lexeme(Punct(CLOSE_BRACE), [], e[7])
  {
  }

  lemma {:induction false} ElementGained(fields: seq<Field>, t: seq<bytes>, e: seq<bytes>)
    requires fields == [Field([X], Points(), Dynamic, false, false, 0)]
    requires SpellsArray(t) && SpellsElement(e) && t[4] == e[0]
    ensures var cleared := ClearedSlots(fields);
            && ShapedSlots(fields, cleared)
            && ReadStruct(fields, NO_MASK, 0, false, t[0], cleared) == Out(OKAY, [Slot(false, ArrV([BLANK, BLANK]))], e[7])
  {
    hide Next, ReadPairs, Points, SpellsElement, Selected;
    var f := fields[0];
    var cleared := ClearedSlots(fields);
    ClearedIsShaped(fields);
    assert cleared == [Slot(false, ArrV([]))];
    LastTokens(e);
    TwoElements(e);
    OneLetter(X);
    assert FindField(fields, [X]) == 0;
    AllSelected(0);
    assert ReadArray(f.item, 0, e[0]) == Out(OKAY, [BLANK, BLANK], e[6]);
    assert ReadDynamic(f, 0, t[3], cleared[0]) == Out(OKAY, Slot(false, ArrV([BLANK, BLANK])), e[6]);
    assert ReadField(f, NO_MASK, 0, t[3], cleared[0]) == Out(OKAY, Slot(false, ArrV([BLANK, BLANK])), e[6]);
    var slots := [Slot(false, ArrV([BLANK, BLANK]))];
    assert cleared[0 := slots[0]] == slots;
    assert ReadMember(fields, NO_MASK, 0, [X], t[3], cleared) == Out(OKAY, slots, e[6]);
    EmptyIsWhole(fields, NO_MASK, 0, e[6], slots);
  }

  lemma {:induction false} TwoElements(e: seq<bytes>)
    requires SpellsElement(e)
    ensures ReadPairs(Structs, Points(), 0, e[0], [], []) == Out(OKAY, [BLANK, BLANK], e[6])
  {
    hide Next, ReadPairs, ReadSeparator, ShapedItem, Points;
    var it := Points();
    BlankPoint();
    LastTokens(e);
    NullElementPasses(e);
    BraceSeparates(it, e[4], [BLANK]);
    BracketIsLast(it, 0, e[5], [BLANK]);
    assert [BLANK] + [BLANK] == [BLANK, BLANK];
  }

  lemma {:induction false} NullElementPasses(e: seq<bytes>)
    requires SpellsElement(e) && ShapedItem(Points(), BLANK)
    ensures ReadPairs(Structs, Points(), 0, e[0], [], []) == ReadSeparator(Structs, Points(), 0, e[4], [], [BLANK])
  {
    hide Next, ReadElement, ReadSeparator, ShapedItem, Points, SpellsElement;
    BlankPoint();
    NullStopsElement(e);
    assert [] + [BLANK] == [BLANK];
  }

  lemma {:induction false} BraceSeparates(it: Item, s: bytes, done: seq<Datum>)
    requires Next(s).kind == Punct(CLOSE_BRACE) && forall e :: e in done ==> ShapedItem(it, e)
    ensures ReadSeparator(Structs, it, 0, s, [], done) == ReadPairs(Structs, it, 0, Next(s).rest, [], done)
  {
    hide Next, ReadPairs;
  }

  // ----- A fixed array of structs that is read beyond its own bracket -----

  /** `{"x":[[{"y":999,"f":[{"a":[1]}]}]]}`. */
  const OVERRUN: bytes := [123, 34, 120, 34, 58, 91, 91] + OVERRUN_MIDDLE
  const OVERRUN_MIDDLE: bytes := [123, 34, 121, 34, 58, 57, 57, 57, 44] + OVERRUN_END
  const OVERRUN_END: bytes := [34, 102, 34, 58, 91, 123, 34, 97, 34, 58, 91] + OVERRUN_TAIL
  const OVERRUN_TAIL: bytes := [49, 93, 125, 93, 125, 93, 93, 125]

  /** `{"x":[[` */
  predicate SpellsStart(t: seq<bytes>) {
    && |t| == 6 && Spells(t, 0, Punct(OPEN_BRACE), []) && Spells(t, 1, String, [X]) && Spells(t, 2, Punct(COLON), [])
    && Spells(t, 3, Punct(OPEN_BRACKET), []) && Spells(t, 4, Punct(OPEN_BRACKET), [])
  }

  /** `{"y":999,` */
  predicate SpellsMiddle(t: seq<bytes>) {
    && |t| == 6 && Spells(t, 0, Punct(OPEN_BRACE), []) && Spells(t, 1, String, [Y]) && Spells(t, 2, Punct(COLON), [])
    && Spells(t, 3, Kind.Int, Decimal.Digits(999)) && Spells(t, 4, Punct(COMMA), [])
  }

  /** `"f":[{"a":[` */
  predicate SpellsEnd(t: seq<bytes>) {
    && |t| == 8 && Spells(t, 0, String, [F]) && Spells(t, 1, Punct(COLON), []) && Spells(t, 2, Punct(OPEN_BRACKET), [])
    && Spells(t, 3, Punct(OPEN_BRACE), []) && Spells(t, 4, String, [A]) && Spells(t, 5, Punct(COLON), [])
    && Spells(t, 6, Punct(OPEN_BRACKET), [])
  }

  /** `1]}]}]]}` */
  predicate SpellsTail(t: seq<bytes>) {
    && |t| == 9 && Spells(t, 0, Kind.Int, Decimal.Digits(1)) && Spells(t, 1, Punct(CLOSE_BRACKET), [])
    && Spells(t, 2, Punct(CLOSE_BRACE), []) && Spells(t, 3, Punct(CLOSE_BRACKET), []) && Spells(t, 4, Punct(CLOSE_BRACE), [])
    && Spells(t, 5, Punct(CLOSE_BRACKET), []) && Spells(t, 6, Punct(CLOSE_BRACKET), []) && Spells(t, 7, Punct(CLOSE_BRACE), [])
  }

  lemma {:induction false} TailTokens() returns (t: seq<bytes>)
    ensures SpellsTail(t) && t[0] == OVERRUN_TAIL && t[8] == []
  {
    hide Next;
    var t7: bytes := [CLOSE_BRACE] + [];
    var t6 := [CLOSE_BRACKET] + t7;
    var t5 := [CLOSE_BRACKET] + t6;
    var t4 := [CLOSE_BRACE] + t5;
    var t3 := [CLOSE_BRACKET] + t4;
    var t2 := [CLOSE_BRACE] + t3;
    var t1 := [CLOSE_BRACKET] + t2;
    t := [Decimal.Digits(1) + t1, t1, t2, t3, t4, t5, t6, t7, []];
    NumberToken(1, t1);
    PunctToken(CLOSE_BRACKET, t2);
    PunctToken(CLOSE_BRACE, t3);
    PunctToken(CLOSE_BRACKET, t4);
    PunctToken(CLOSE_BRACE, t5);
    PunctToken(CLOSE_BRACKET, t6);
    PunctToken(CLOSE_BRACKET, t7);
    PunctToken(CLOSE_BRACE, []);
    assert t[0] == OVERRUN_TAIL;
  }

  lemma {:induction false} EndTokens(r: bytes) returns (t: seq<bytes>)
    ensures SpellsEnd(t) && t[0] == [34, 102, 34, 58, 91, 123, 34, 97, 34, 58, 91] + r && t[7] == r
  {
    hide Next;
    var t6 := [OPEN_BRACKET] + r;
    var t5 := [COLON] + t6;
    var t4 := [QUOTE, A, QUOTE] + t5;
    var t3 := [OPEN_BRACE] + t4;
    var t2 := [OPEN_BRACKET] + t3;
    var t1 := [COLON] + t2;
    t := [[QUOTE, F, QUOTE] + t1, t1, t2, t3, t4, t5, t6, r];
    KeyToken(F, t1);
    PunctToken(COLON, t2);
    PunctToken(OPEN_BRACKET, t3);
    PunctToken(OPEN_BRACE, t4);
    KeyToken(A, t5);
    PunctToken(COLON, t6);
    PunctToken(OPEN_BRACKET, r);
    assert t[0] == [34, 102, 34, 58, 91, 123, 34, 97, 34, 58, 91] + r;
  }

  lemma {:induction false} MiddleTokens(r: bytes) returns (t: seq<bytes>)
    ensures SpellsMiddle(t) && t[0] == [123, 34, 121, 34, 58, 57, 57, 57, 44] + r && t[5] == r
  {
    hide Next;
    var t4 := [COMMA] + r;
    var t3 := Decimal.Digits(999) + t4;
    var t2 := [COLON] + t3;
    var t1 := [QUOTE, Y, QUOTE] + t2;
    t := [[OPEN_BRACE] + t1, t1, t2, t3, t4, r];
    PunctToken(OPEN_BRACE, t1);
    KeyToken(Y, t2);
    PunctToken(COLON, t3);
    NumberToken(999, t4);
    PunctToken(COMMA, r);
    assert Decimal.Digits(99) == [57, 57] && Decimal.Digits(999) == [57, 57, 57];
    assert t[0] == [123, 34, 121, 34, 58, 57, 57, 57, 44] + r;
  }

  lemma {:induction false} StartTokens(r: bytes) returns (t: seq<bytes>)
    ensures SpellsStart(t) && t[0] == [123, 34, 120, 34, 58, 91, 91] + r && t[5] == r
  {
    hide Next;
    var t4 := [OPEN_BRACKET] + r;
    var t3 := [OPEN_BRACKET] + t4;
    var t2 := [COLON] + t3;
    var t1 := [QUOTE, X, QUOTE] + t2;
    t := [[OPEN_BRACE] + t1, t1, t2, t3, t4, r];
    PunctToken(OPEN_BRACE, t1);
    KeyToken(X, t2);
    PunctToken(COLON, t3);
    PunctToken(OPEN_BRACKET, t4);
    PunctToken(OPEN_BRACKET, r);
    assert t[0] == [123, 34, 120, 34, 58, 91, 91] + r;
  }

  // From here on the four parts' tokens are all that counts.

  predicate Joined(a: seq<bytes>, m: seq<bytes>, e: seq<bytes>, t: seq<bytes>) {
    SpellsStart(a) && SpellsMiddle(m) && SpellsEnd(e) && SpellsTail(t) && a[5] == m[0] && m[5] == e[0] && e[7] == t[0]
  }

  lemma {:induction false} OverrunIsObject(a: seq<bytes>, m: seq<bytes>, e: seq<bytes>, t: seq<bytes>)
    requires Joined(a, m, e, t)
    ensures MemberValue(a[1]) == Some(a[3]) && Value(a[3]) == Some(t[7]) && Members(a[1]) == Some(t[8])
  {
    hide Next, SpellsStart;
    assert Elements(t[0]) == Some(t[2]) && Value(e[6]) == Some(t[2]);
    assert Members(e[4]) == Some(t[3]) && Value(e[3]) == Some(t[3]);
    assert Elements(e[3]) == Some(t[4]) && Value(e[2]) == Some(t[4]);
    assert Members(e[0]) == Some(t[5]);
    assert Value(m[3]) == Some(m[4]) && Members(m[1]) == Members(e[0]);
    assert Value(m[0]) == Some(t[5]) && Elements(m[0]) == Some(t[6]);
    OverrunFront(a, t);
  }

  lemma {:induction false} OverrunFront(a: seq<bytes>, t: seq<bytes>)
    requires SpellsStart(a) && SpellsTail(t) && Elements(a[5]) == Some(t[6])
    ensures MemberValue(a[1]) == Some(a[3]) && Value(a[3]) == Some(t[7]) && Members(a[1]) == Some(t[8])
  {
    hide Next;
    assert Value(a[4]) == Some(t[6]);
    assert Elements(a[4]) == Some(t[7]);
  }

  // What the readers make of it.

  function OverrunFields(): seq<Field> {
    [IntField(X, 8, Dynamic, 0), Field([F], Nested([IntField(A, 32, Single, 0)]), Fixed(4), false, false, 1)]
  }

  /** One element and one separator, neither of which ends the loop. */
  lemma {:induction false} TwoTokens(ty: Scalar, s: bytes, done: seq<Datum>)
    requires !Refused(ty, s) && Next(s).kind !in {Eof, Error, Punct(CLOSE_BRACKET)}
    requires Next(Next(s).rest).kind !in {Eof, Error, Punct(CLOSE_BRACKET)}
    ensures var e := ReadScalar(ty, s, ClearedScalar(ty));
            ReadPairs(Scalars, Plain(ty), 0, s, [], done)
            == ReadPairs(Scalars, Plain(ty), 0, Next(Next(s).rest).rest, [], done + [e.val])
  {
    hide Next, ReadScalar, Refused, ScalarFits;
    ScalarOutcome(ty, s, ClearedScalar(ty));
    ScalarCodes(ty, s, ClearedScalar(ty));
    ClearedItemIsShaped(Plain(ty));
  }

  /** A number that does not fit ends the loop. */
  lemma {:induction false} RefusedEnds(ty: Scalar, s: bytes, done: seq<Datum>)
    requires Refused(ty, s) && Next(s).kind !in {Eof, Error}
    ensures ReadPairs(Scalars, Plain(ty), 0, s, [], done) == Out(FAILED, done, Next(s).rest)
  {
    hide Next, ReadScalar, Refused, ScalarFits;
    ScalarOutcome(ty, s, ClearedScalar(ty));
    ClearedItemIsShaped(Plain(ty));
  }

  /** The array of numbers is left in the middle of an object in an array in it. */
  lemma {:induction false} NumbersLeft(a: seq<bytes>, m: seq<bytes>, cur: Slot)
    requires SpellsStart(a) && SpellsMiddle(m) && a[5] == m[0] && cur.val.ArrV?
    ensures var o := ReadField(OverrunFields()[0], NO_MASK, 0, a[3], cur); o.code == OKAY && o.rest == m[4]
  {
    hide Next, ReadScalar, ReadPairs;
    var ty := Integer(8, true);
    var zero := ClearedScalar(ty);
    TooWide(m);
    Unrefused(a, m);
    var d1 := [ReadScalar(ty, a[4], zero).val];
    TwoTokens(ty, a[4], []);
    var d2 := d1 + [ReadScalar(ty, m[1], zero).val];
    TwoTokens(ty, m[1], d1);
    RefusedEnds(ty, m[3], d2);
    assert [] + d1 == d1;
    var f := OverrunFields()[0];
    assert f == IntField(X, 8, Dynamic, 0);
    assert ReadArray(f.item, 0, a[4]).code == FAILED && ReadArray(f.item, 0, a[4]).rest == m[4];
  }

  lemma {:induction false} TooWide(m: seq<bytes>)
    requires SpellsMiddle(m)
    ensures Refused(Integer(8, true), m[3])
  {
    hide Next, Decimal.Digits, Decimal.ReadInt;
    assert Decimal.Text(999) == Decimal.Digits(999);
    Decimal.WideValuesAreClamped(8, true, 999);
  }

  lemma {:induction false} Unrefused(a: seq<bytes>, m: seq<bytes>)
    requires SpellsStart(a) && SpellsMiddle(m)
    ensures var ty := Integer(8, true); !Refused(ty, a[4]) && !Refused(ty, m[1])
  {
    hide Next;
  }

  /** At an element's place a bracket counts as an element, and the loop goes on behind it. */
  lemma {:induction false} BracketCounts(it: Item, depth: nat, s: bytes, held: seq<Datum>, done: seq<Datum>)
    requires it.Nested? && Next(s).kind == Punct(CLOSE_BRACKET) && depth < JSON_MAX_DEPTH && held != []
    requires (forall e :: e in held ==> ShapedItem(it, e)) && (forall e :: e in done ==> ShapedItem(it, e))
    ensures ReadPairs(Inline, it, depth, s, held, done) == ReadSeparator(Inline, it, depth, Next(s).rest, held[1..], done + [held[0]])
  {
    hide Next, ReadSeparator, ReadMembers, ShapedSlots;
    var cur := held[0];
    assert ShapedItem(it, cur);
    assert ReadElement(it, depth, s, cur) == Out(Ret(1), cur, Next(s).rest);
  }

  lemma {:induction false} AnySeparator(it: Item, depth: nat, s: bytes, held: seq<Datum>, done: seq<Datum>)
    requires (forall e :: e in held ==> ShapedItem(it, e)) && (forall e :: e in done ==> ShapedItem(it, e))
    requires Next(s).kind !in {Eof, Error, Punct(CLOSE_BRACKET)}
    ensures ReadSeparator(Inline, it, depth, s, held, done) == ReadPairs(Inline, it, depth, Next(s).rest, held, done)
  {
    hide Next, ReadPairs;
  }

  /** Three brackets count as elements, two braces as separators, and only the fourth bracket ends the array. */
  lemma {:induction false} ThreeBrackets(it: Item, t: seq<bytes>, held: seq<Datum>, done: seq<Datum>)
    requires it.Nested? && SpellsTail(t) && |held| == 3
    requires (forall e :: e in held ==> ShapedItem(it, e)) && (forall e :: e in done ==> ShapedItem(it, e))
    ensures var o := ReadSeparator(Inline, it, 0, t[0], held, done); o.code == OKAY && o.rest == t[7]
  {
    hide Next, ReadPairs, ReadSeparator, ShapedItem;
    var d1 := done + [held[0]];
    var d2 := d1 + [held[1]];
    var d3 := d2 + [held[2]];
    AnySeparator(it, 0, t[0], held, done);
    BracketCounts(it, 0, t[1], held, done);
    AnySeparator(it, 0, t[2], held[1..], d1);
    BracketCounts(it, 0, t[3], held[1..], d1);
    assert held[1..][1..] == held[2..];
    AnySeparator(it, 0, t[4], held[2..], d2);
    BracketCounts(it, 0, t[5], held[2..], d2);
    assert held[2..][1..] == [];
    LastBracket(it, t[6], d3);
  }

  lemma {:induction false} LastBracket(it: Item, s: bytes, done: seq<Datum>)
    requires Next(s).kind == Punct(CLOSE_BRACKET) && forall e :: e in done ==> ShapedItem(it, e)
    ensures var o := ReadSeparator(Inline, it, 0, s, [], done); o.code == OKAY && o.rest == Next(s).rest
  {
    hide Next, ReadPairs;
  }

  /** `[` for the number `a` leaves the struct inside the array in it, and only there does its own array go on. */
  lemma {:induction false} StructLeft(e: seq<bytes>, cur: Datum)
    requires SpellsEnd(e) && ShapedItem(OverrunFields()[1].item, cur)
    ensures var o := ReadElement(OverrunFields()[1].item, 0, e[3], cur); o.code == Ret(OPEN_BRACKET) && o.rest == e[7]
  {
    hide Next;
    var it := OverrunFields()[1].item;
    OneLetter(A);
    assert FindField(it.fields, [A]) == 0;
    var f := it.fields[0];
    AllSelected(f.index);
    assert ReadScalar(f.item.scalar, e[6], cur.slots[0].val) == Out(Ret(OPEN_BRACKET), cur.slots[0].val, e[7]);
    assert f == IntField(A, 32, Single, 0) && Next(e[6]).kind == Punct(OPEN_BRACKET);
    assert ReadSingle(f.item, NO_MASK, 1, e[6], cur.slots[0].val) == Out(Ret(OPEN_BRACKET), cur.slots[0].val, e[7]);
    var x := ReadField(f, NO_MASK, 1, e[6], cur.slots[0]);
    assert x.code == Ret(OPEN_BRACKET) && x.rest == e[7];
    var o := ReadMember(it.fields, NO_MASK, 1, [A], e[6], cur.slots);
    assert o.code == Ret(OPEN_BRACKET) && o.rest == e[7];
    assert ReadMembers(it.fields, NO_MASK, 1, e[4], cur.slots) == o;
  }

  lemma {:induction false} StructsOverrun(e: seq<bytes>, t: seq<bytes>, cur: Slot)
    requires SpellsEnd(e) && SpellsTail(t) && e[7] == t[0] && ShapedField(OverrunFields()[1], cur.val)
    ensures var o := ReadField(OverrunFields()[1], NO_MASK, 0, e[2], cur); o.code == OKAY && o.rest == t[7]
  {
    hide Next, ReadElement, ReadSeparator, ShapedItem;
    var it := OverrunFields()[1].item;
    var held := cur.val.elems;
    StructLeft(e, held[0]);
    var x := ReadElement(it, 0, e[3], held[0]);
    ThreeBrackets(it, t, held[1..], [x.val]);
    assert [] + [x.val] == [x.val];
    assert ReadPairs(Inline, it, 0, e[3], held, []) == ReadSeparator(Inline, it, 0, e[7], held[1..], [x.val]);
  }

  lemma {:induction false} OverrunReadsWhole(a: seq<bytes>, m: seq<bytes>, e: seq<bytes>, t: seq<bytes>, slots: seq<Slot>)
    requires Joined(a, m, e, t) && ShapedSlots(OverrunFields(), slots)
    ensures var o := ReadMembers(OverrunFields(), NO_MASK, 0, a[1], slots); o.code == OKAY && o.rest == t[8]
  {
    hide Next, ReadField, ReadMembers, Selected;
    var fields := OverrunFields();
    FirstOfOverrun(a, m, slots);
    var o := ReadMember(fields, NO_MASK, 0, [X], a[3], slots);
    SecondOfOverrun(e, t, o.val);
    NoBraceAhead(e[0]);
    MembersStep(fields, a[1], [X], a[3], slots);
    CommaStep(fields, m[4], o.val);
    MembersStep(fields, e[0], [F], e[2], o.val);
    var x := ReadMember(fields, NO_MASK, 0, [F], e[2], o.val);
    EmptyIsWhole(fields, NO_MASK, 0, t[7], x.val);
  }

  lemma {:induction false} MembersStep(fields: seq<Field>, s: bytes, key: bytes, v: bytes, slots: seq<Slot>)
    requires ShapedSlots(fields, slots) && MemberValue(s) == Some(v) && Next(s).text == key
    requires ReadMember(fields, NO_MASK, 0, key, v, slots).code == OKAY
    ensures var o := ReadMember(fields, NO_MASK, 0, key, v, slots);
            ReadMembers(fields, NO_MASK, 0, s, slots) == ReadMembers(fields, NO_MASK, 0, o.rest, o.val)
  {
    hide Next, ReadMember, ShapedSlots;
  }

  lemma {:induction false} CommaStep(fields: seq<Field>, s: bytes, slots: seq<Slot>)
    requires ShapedSlots(fields, slots) && Next(s).kind == Punct(COMMA) && Next(Next(s).rest).kind == String
    ensures ReadMembers(fields, NO_MASK, 0, s, slots) == ReadMembers(fields, NO_MASK, 0, Next(s).rest, slots)
  {
    hide Next, ReadMember, ShapedSlots;
    NoBraceAhead(Next(s).rest);
  }

  lemma {:induction false} FirstOfOverrun(a: seq<bytes>, m: seq<bytes>, slots: seq<Slot>)
    requires SpellsStart(a) && SpellsMiddle(m) && a[5] == m[0] && ShapedSlots(OverrunFields(), slots)
    ensures var o := ReadMember(OverrunFields(), NO_MASK, 0, [X], a[3], slots); o.code == OKAY && o.rest == m[4]
  {
    hide Next, ReadField, Selected;
    var fields := OverrunFields();
    OneLetter(X);
    assert FindField(fields, [X]) == 0;
    AllSelected(fields[0].index);
    assert ShapedField(fields[0], slots[0].val);
    NumbersLeft(a, m, slots[0]);
  }

  lemma {:induction false} SecondOfOverrun(e: seq<bytes>, t: seq<bytes>, slots: seq<Slot>)
    requires SpellsEnd(e) && SpellsTail(t) && e[7] == t[0] && ShapedSlots(OverrunFields(), slots)
    ensures var o := ReadMember(OverrunFields(), NO_MASK, 0, [F], e[2], slots); o.code == OKAY && o.rest == t[7]
  {
    hide Next, ReadField, Selected;
    var fields := OverrunFields();
    OneLetter(F);
    assert FindField(fields, [F]) == 1;
    AllSelected(fields[1].index);
    assert ShapedField(fields[1], slots[1].val);
    StructsOverrun(e, t, slots[1]);
  }

  /**
   Where a fixed array of structs goes beyond its bracket the damage of another value can be undone:
   here both reads agree and end behind the object, though the value of `x` is not read to its end.
   */
  lemma {:induction false} OverrunAgrees()
    ensures var fields := OverrunFields(); var s := Next(OVERRUN).rest;
            && ShapedSlots(fields, ClearedSlots(fields)) && Object(s).Some? && NamedOnce(fields, ObjectMembers(s))
            && Agrees(fields, Mask(Some([]), []), 0, s, ClearedSlots(fields)) && !ObjectExact(fields, 0, s)
  {
    hide Next, ReadMembers, Spells, ObjectExact, NamedOnce, ObjectMembers, ShapedSlots, Agrees, ClearedSlots;
    var t := TailTokens();
    var e := EndTokens(t[0]);
    var m := MiddleTokens(e[0]);
    var a := StartTokens(m[0]);
    assert a[0] == OVERRUN;
    OverrunAgreesFrom(a, m, e, t);
  }

  lemma {:induction false} OverrunAgreesFrom(a: seq<bytes>, m: seq<bytes>, e: seq<bytes>, t: seq<bytes>)
    requires Joined(a, m, e, t)
    ensures Next(a[0]).rest == a[1]
    ensures var fields := OverrunFields();
            && ShapedSlots(fields, ClearedSlots(fields)) && Object(a[1]).Some? && NamedOnce(fields, ObjectMembers(a[1]))
            && Agrees(fields, Mask(Some([]), []), 0, a[1], ClearedSlots(fields)) && !ObjectExact(fields, 0, a[1])
  {
    hide Next, ReadMembers, SpellsStart, SpellsMiddle, SpellsEnd, SpellsTail, ShapedSlots, ClearedSlots, ObjectExact,
      Members;
    var fields := OverrunFields();
    var cleared := ClearedSlots(fields);
    ClearedIsShaped(fields);
    OverrunIsObject(a, m, e, t);
    OverrunReadsWhole(a, m, e, t, cleared);
    OverrunSkipped(a, t, cleared);
    OverrunInexact(a, t);
    assert forall i :: 0 <= i < 2 ==> !Selected(Mask(Some([]), []), fields[i].index);
  }

  lemma {:induction false} OverrunSkipped(a: seq<bytes>, t: seq<bytes>, slots: seq<Slot>)
    requires SpellsStart(a) && SpellsTail(t) && Value(a[3]) == Some(t[7]) && ShapedSlots(OverrunFields(), slots)
    ensures ReadMembers(OverrunFields(), Mask(Some([]), []), 0, a[1], slots) == Out(OKAY, slots, t[8])
    ensures Object(a[1]) == Some(t[8]) && NamedOnce(OverrunFields(), ObjectMembers(a[1])) && Next(a[0]).rest == a[1]
  {
    hide Next, ReadField, Value, Count, ShapedSlots;
    var fields := OverrunFields();
    var none := Mask(Some([]), []);
    OneLetter(X);
    assert FindField(fields, [X]) == 0 && !Selected(none, fields[0].index);
    CountersFollowGrammar(a[3]);
    assert ReadMember(fields, none, 0, [X], a[3], slots) == Out(OKAY, slots, t[7]);
    EmptyIsWhole(fields, none, 0, t[7], slots);
    assert MemberList(a[1]) == [Member([X], a[3])];
  }

  lemma {:induction false} OverrunInexact(a: seq<bytes>, t: seq<bytes>)
    requires SpellsStart(a) && SpellsTail(t) && Value(a[3]) == Some(t[7]) && Object(a[1]).Some?
    ensures !ObjectExact(OverrunFields(), 0, a[1])
  {
    hide Next, Value;
    var fields := OverrunFields();
    OneLetter(X);
    assert FindField(fields, [X]) == 0;
    assert !Steady(Integer(8, true), None, true, a[4]);
    assert !FieldExact(fields[0], 0, a[3]);
  }
}
