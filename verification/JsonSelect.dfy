/** Reading the selected fields of a JSON object against reading all of them. */
module JsonSelect {
  import opened Bytes
  import opened JsonLex
  import opened JsonSkip
  import opened JsonTag
  import opened JsonFields
  import opened JsonReading
  import opened JsonInside
  import opened JsonLanding
  import opened JsonExact
  import opened JsonWhole
  import opened JsonCaught

  // ----- Which members name which fields -----

  predicate Names(fields: seq<Field>, m: Member, i: nat) {
    FindField(fields, CString(m.key)) == i
  }

  predicate Distinct(fields: seq<Field>, ms: seq<Member>) {
    forall a, b :: 0 <= a < b < |ms| && FindField(fields, CString(ms[a].key)) >= 0 ==>
                     FindField(fields, CString(ms[a].key)) != FindField(fields, CString(ms[b].key))
  }

  predicate Present(fields: seq<Field>, ms: seq<Member>, i: nat) {
    exists k :: 0 <= k < |ms| && Names(fields, ms[k], i)
  }

  /** No field is named by two members, here or in an object for a nested struct. */
  predicate NamedOnce(fields: seq<Field>, ms: seq<Member>)
    decreases fields
  {
    && Distinct(fields, ms)
    && forall k :: 0 <= k < |ms| ==>
         var i := FindField(fields, CString(ms[k].key)); i >= 0 ==> NamedOnceInside(fields[i], ms[k].at)
  }

  predicate NamedOnceInside(f: Field, v: bytes)
    decreases f
  {
    f.shape.Single? && f.item.Nested? && Next(v).kind == Punct(OPEN_BRACE) && Object(Next(v).rest).Some? ==>
      NamedOnce(f.item.fields, ObjectMembers(Next(v).rest))
  }

  // ----- What the masks of nested structs leave of a value -----

  function Projected(f: Field, sub: Mask, slot: Slot): Slot
    requires ShapedField(f, slot.val)
    decreases f
  {
    if f.shape.Single? && f.item.Nested? then
      assert ShapedItem(f.item, slot.val);
      Slot(slot.has, StructV(ProjectedSlots(f.item.fields, sub, slot.val.slots)))
    else slot
  }

  /** Fields that are not selected stay as they were cleared, and so on downwards. */
  function ProjectedSlots(fields: seq<Field>, mask: Mask, slots: seq<Slot>): (r: seq<Slot>)
    requires ShapedSlots(fields, slots)
    ensures |r| == |fields|
    ensures forall i :: 0 <= i < |fields| ==>
              r[i] == if Selected(mask, fields[i].index) then Projected(fields[i], FindNested(mask.nested, fields[i].index), slots[i])
                      else ClearedField(fields[i])
    decreases fields
  {
    if fields == [] then []
    else
      [if Selected(mask, fields[0].index) then Projected(fields[0], FindNested(mask.nested, fields[0].index), slots[0])
       else ClearedField(fields[0])]
      + ProjectedSlots(fields[1..], mask, slots[1..])
  }

  lemma {:induction false} ClearedIsProjected(f: Field, sub: Mask)
    ensures ShapedField(f, ClearedField(f).val) && Projected(f, sub, ClearedField(f)) == ClearedField(f)
    decreases f
  {
    hide Selected, FindNested;
    ClearedFieldIsShaped(f);
    if f.shape.Single? && f.item.Nested? {
      var fields := f.item.fields;
      var slots := ClearedSlots(fields);
      ClearedIsShaped(fields);
      var r := ProjectedSlots(fields, sub, slots);
      forall i | 0 <= i < |fields| ensures r[i] == slots[i] {
        ClearedIsProjected(fields[i], FindNested(sub.nested, fields[i].index));
      }
      assert r == slots;
    }
  }

  // ----- The members one after the other -----

  function Apply(fields: seq<Field>, mask: Mask, depth: nat, ms: seq<Member>, slots: seq<Slot>): (r: seq<Slot>)
    requires ShapedSlots(fields, slots)
    ensures ShapedSlots(fields, r)
    decreases |ms|
  {
    if ms == [] then slots
    else Apply(fields, mask, depth, ms[1..], ReadMember(fields, mask, depth, ms[0].key, ms[0].at, slots).val)
  }

  /** On members read exactly the loop is the members applied in order. */
  lemma {:induction false} MembersApplied(fields: seq<Field>, mask: Mask, depth: nat, s: bytes, slots: seq<Slot>)
    requires ShapedSlots(fields, slots) && Members(s).Some? && MembersExact(fields, depth, s)
    ensures ReadMembers(fields, mask, depth, s, slots)
            == Out(OKAY, Apply(fields, mask, depth, MemberList(s), slots), Members(s).value)
    decreases |s|
  {
    hide Next, FieldExact, ReadMember, Value, ShapedSlots;
    var key := Next(s).text;
    var v := MemberValue(s).value;
    var l := Next(Value(v).value);
    MemberIsWhole(fields, mask, depth, key, v, slots);
    var slots' := ReadMember(fields, mask, depth, key, v, slots).val;
    var ms := MemberList(s);
    assert ms[0] == Member(key, v);
    if l.kind == Punct(COMMA) {
      assert ms[1..] == MemberList(l.rest);
      NoTrailingComma(l.rest);
      MembersApplied(fields, mask, depth, l.rest, slots');
    } else {
      assert ms[1..] == [];
    }
  }

  lemma {:induction false} ObjectApplied(fields: seq<Field>, mask: Mask, depth: nat, s: bytes, slots: seq<Slot>)
    requires ShapedSlots(fields, slots) && Object(s).Some? && ObjectExact(fields, depth, s)
    ensures ReadMembers(fields, mask, depth, s, slots)
            == Out(OKAY, Apply(fields, mask, depth, ObjectMembers(s), slots), Object(s).value)
  {
    hide Next, ReadMembers, MembersExact, MemberList, ShapedSlots, Members, ReadMember;
    if Next(s).kind == Punct(CLOSE_BRACE) {
      EmptyIsWhole(fields, mask, depth, s, slots);
    } else {
      MembersApplied(fields, mask, depth, s, slots);
    }
  }

  /** What a member leaves in its field when the field was cleared before. */
  function FromCleared(f: Field, sub: Mask, depth: nat, v: bytes): (r: Slot)
    ensures ShapedField(f, r.val)
  {
    ClearedFieldIsShaped(f);
    if f.nullable && Next(v).kind == Null then ClearedField(f) else ReadField(f, sub, depth, v, ClearedField(f)).val
  }

  function SubMask(mask: Mask, f: Field): Mask {
    FindNested(mask.nested, f.index)
  }

  /** With or without a mask a member changes its own field only, and a selected one always to the same. */
  lemma {:induction false} MemberEffect(fields: seq<Field>, mask: Mask, depth: nat, m: Member, slots: seq<Slot>, i: nat)
    requires ShapedSlots(fields, slots) && i < |fields|
    requires mask.words.None? ==> slots[i] == ClearedField(fields[i])
    ensures ReadMember(fields, mask, depth, m.key, m.at, slots).val[i]
            == if Names(fields, m, i) && Selected(mask, fields[i].index)
               then FromCleared(fields[i], SubMask(mask, fields[i]), depth, m.at) else slots[i]
  {
    hide Next, ReadField, Count, Selected, ShapedField;
    ClearedFieldIsShaped(fields[i]);
  }

  lemma {:induction false} ApplyEffect(fields: seq<Field>, mask: Mask, depth: nat, ms: seq<Member>, slots: seq<Slot>,
        i: nat)
    requires ShapedSlots(fields, slots) && i < |fields| && Distinct(fields, ms)
    requires mask.words.None? ==> slots[i] == ClearedField(fields[i])
    ensures !(Selected(mask, fields[i].index) && Present(fields, ms, i)) ==>
              Apply(fields, mask, depth, ms, slots)[i] == slots[i]
    ensures Selected(mask, fields[i].index) ==> forall k :: 0 <= k < |ms| && Names(fields, ms[k], i) ==>
              Apply(fields, mask, depth, ms, slots)[i] == FromCleared(fields[i], SubMask(mask, fields[i]), depth, ms[k].at)
    decreases |ms|
  {
    hide Selected, ReadMember, FromCleared, Names, ShapedSlots, SubMask, ClearedField;
    if ms != [] {
      var rest := ms[1..];
      var slots' := ReadMember(fields, mask, depth, ms[0].key, ms[0].at, slots).val;
      MemberEffect(fields, mask, depth, ms[0], slots, i);
      DistinctTail(fields, ms, i);
      if Names(fields, ms[0], i) && Selected(mask, fields[i].index) {
        NotThere(fields, mask, depth, rest, slots', i);
      } else {
        ApplyEffect(fields, mask, depth, rest, slots', i);
      }
    }
  }

  lemma {:induction false} DistinctTail(fields: seq<Field>, ms: seq<Member>, i: nat)
    requires ms != [] && Distinct(fields, ms)
    ensures Distinct(fields, ms[1..]) && (Names(fields, ms[0], i) ==> !Present(fields, ms[1..], i))
    ensures Present(fields, ms, i) <==> Names(fields, ms[0], i) || Present(fields, ms[1..], i)
    ensures forall k :: 0 < k < |ms| ==> ms[k] == ms[1..][k - 1]
  {
    hide CString;
    if Present(fields, ms[1..], i) {
      var k :| 0 <= k < |ms| - 1 && Names(fields, ms[1..][k], i);
      assert Names(fields, ms[k + 1], i);
    }
    if Present(fields, ms, i) && !Names(fields, ms[0], i) {
      var k :| 0 <= k < |ms| && Names(fields, ms[k], i);
      assert Names(fields, ms[1..][k - 1], i);
    }
  }

  /** Members that name other fields leave a field alone. */
  lemma {:induction false} NotThere(fields: seq<Field>, mask: Mask, depth: nat, ms: seq<Member>, slots: seq<Slot>, i: nat)
    requires ShapedSlots(fields, slots) && i < |fields| && !Present(fields, ms, i)
    ensures Apply(fields, mask, depth, ms, slots)[i] == slots[i]
    decreases |ms|
  {
    hide Selected, ReadField, Count, ShapedField;
    if ms != [] {
      assert !Names(fields, ms[0], i);
      var slots' := ReadMember(fields, mask, depth, ms[0].key, ms[0].at, slots).val;
      assert slots'[i] == slots[i];
      forall k | 0 <= k < |ms| - 1 ensures !Names(fields, ms[1..][k], i) { assert ms[1..][k] == ms[k + 1]; }
      NotThere(fields, mask, depth, ms[1..], slots', i);
    }
  }

  // ----- Selective reading refines full reading -----

  /** A read of a cleared object under a mask leaves the projection of what a full read leaves. */
  lemma {:induction false} ObjectProjects(fields: seq<Field>, mask: Mask, depth: nat, s: bytes)
    requires Object(s).Some? && ObjectExact(fields, depth, s) && NamedOnce(fields, ObjectMembers(s))
    ensures ShapedSlots(fields, ClearedSlots(fields))
    ensures ReadMembers(fields, mask, depth, s, ClearedSlots(fields)).val
            == ProjectedSlots(fields, mask, ReadMembers(fields, NO_MASK, depth, s, ClearedSlots(fields)).val)
    decreases fields, 1
  {
    hide Next, ReadMembers, Apply, Selected, ObjectExact, ObjectMembers, ShapedField, Object;
    ClearedIsShaped(fields);
    var slots := ClearedSlots(fields);
    var ms := ObjectMembers(s);
    ObjectApplied(fields, mask, depth, s, slots);
    ObjectApplied(fields, NO_MASK, depth, s, slots);
    var full := Apply(fields, NO_MASK, depth, ms, slots);
    var some := Apply(fields, mask, depth, ms, slots);
    var r := ProjectedSlots(fields, mask, full);
    forall i | 0 <= i < |fields| ensures some[i] == r[i] {
      SlotProjects(fields, mask, depth, s, slots, i);
    }
    assert some == r;
  }

  lemma {:induction false} SlotProjects(fields: seq<Field>, mask: Mask, depth: nat, s: bytes, slots: seq<Slot>, i: nat)
    requires Object(s).Some? && ObjectExact(fields, depth, s) && NamedOnce(fields, ObjectMembers(s))
    requires i < |fields| && ShapedSlots(fields, slots) && slots == ClearedSlots(fields)
    ensures Apply(fields, mask, depth, ObjectMembers(s), slots)[i]
            == if Selected(mask, fields[i].index)
               then Projected(fields[i], SubMask(mask, fields[i]), Apply(fields, NO_MASK, depth, ObjectMembers(s), slots)[i])
               else ClearedField(fields[i])
    decreases fields, 0
  {
    hide Next, ReadMembers, Apply, Selected, Projected, FromCleared, ObjectExact, Names, ShapedField, Object,
      ClearedField, NamedOnceInside;
    var f := fields[i];
    var ms := ObjectMembers(s);
    AllSelected(f.index);
    ApplyEffect(fields, mask, depth, ms, slots, i);
    ApplyEffect(fields, NO_MASK, depth, ms, slots, i);
    ClearedIsProjected(f, SubMask(mask, f));
    if Selected(mask, f.index) && Present(fields, ms, i) {
      var k :| 0 <= k < |ms| && Names(fields, ms[k], i);
      NamesField(fields, ms[k], i);
      MemberIsExact(fields, depth, s, k);
      FieldProjects(f, SubMask(mask, f), depth, ms[k].at);
    }
  }

  lemma {:induction false} AllSelected(index: int)
    ensures Selected(NO_MASK, index) && FindNested(NO_MASK.nested, index) == NO_MASK
  {
  }

  lemma {:induction false} NamesField(fields: seq<Field>, m: Member, i: nat)
    requires Names(fields, m, i)
    ensures FindField(fields, CString(m.key)) == i
  {
  }

  lemma {:induction false} MemberIsExact(fields: seq<Field>, depth: nat, s: bytes, k: nat)
    requires Object(s).Some? && ObjectExact(fields, depth, s) && k < |ObjectMembers(s)|
    ensures var m := ObjectMembers(s)[k]; var i := FindField(fields, CString(m.key));
            Value(m.at).Some? && (i >= 0 ==> FieldExact(fields[i], depth, m.at))
  {
    hide Next, FieldExact, Value, Members, MembersExact, MemberList;
    if Next(s).kind != Punct(CLOSE_BRACE) { ListedIsExact(fields, depth, s, k); }
  }

  lemma {:induction false} ListedIsExact(fields: seq<Field>, depth: nat, s: bytes, k: nat)
    requires Members(s).Some? && MembersExact(fields, depth, s) && k < |MemberList(s)|
    ensures var m := MemberList(s)[k]; var i := FindField(fields, CString(m.key));
            Value(m.at).Some? && (i >= 0 ==> FieldExact(fields[i], depth, m.at))
    decreases |s|
  {
    hide Next, FieldExact, Value;
    var v := MemberValue(s).value;
    var l := Next(Value(v).value);
    var ms := MemberList(s);
    assert ms[0] == Member(Next(s).text, v);
    if k > 0 {
      assert ms[1..] == MemberList(l.rest) && ms[k] == ms[1..][k - 1];
      ListedIsExact(fields, depth, l.rest, k - 1);
    }
  }

  lemma {:induction false} FieldProjects(f: Field, sub: Mask, depth: nat, v: bytes)
    requires Value(v).Some? && FieldExact(f, depth, v) && NamedOnceInside(f, v)
    ensures FromCleared(f, sub, depth, v) == Projected(f, sub, FromCleared(f, NO_MASK, depth, v))
    decreases f
  {
    hide Next, ReadScalar, ReadStruct, ReadUnion, ReadMap, ReadFixed, ReadDynamic, FieldExact, ProjectedSlots,
      ShapedItem, NamedOnce, ObjectMembers, Elements, Members;
    ClearedFieldIsShaped(f);
    ClearedIsProjected(f, sub);
    if !(f.nullable && Next(v).kind == Null) {
      FieldIsWhole(f, sub, depth, v, ClearedField(f));
      FieldIsWhole(f, NO_MASK, depth, v, ClearedField(f));
      if f.shape.Single? && f.item.Nested? { NestedProjects(f, sub, depth, v); }
    }
  }

  lemma {:induction false} NestedProjects(f: Field, sub: Mask, depth: nat, v: bytes)
    requires f.shape.Single? && f.item.Nested? && !(f.nullable && Next(v).kind == Null)
    requires Value(v).Some? && FieldExact(f, depth, v) && NamedOnceInside(f, v)
    ensures ShapedSlots(f.item.fields, ClearedSlots(f.item.fields))
    ensures var slots := ClearedSlots(f.item.fields);
            ReadStruct(f.item.fields, sub, depth + 1, false, v, slots).val
            == ProjectedSlots(f.item.fields, sub, ReadStruct(f.item.fields, NO_MASK, depth + 1, false, v, slots).val)
    decreases f, 0
  {
    hide Next, ReadMembers, ObjectExact, ProjectedSlots, ShapedSlots, NamedOnce, ObjectMembers, Elements, Members;
    ObjectProjects(f.item.fields, sub, depth + 1, Next(v).rest);
  }

  /**
   What a caller who selects fields can hope for: both reads succeed and end behind the object, a
   selected field that is present gets what a full read into a cleared object gives, as far as the
   masks of nested structs go, and every other field stays as it was.
   */
  ghost predicate Agrees(fields: seq<Field>, mask: Mask, depth: nat, s: bytes, slots: seq<Slot>)
    requires Object(s).Some? && ShapedSlots(fields, slots)
  {
    ClearedIsShaped(fields);
    var full := ReadMembers(fields, NO_MASK, depth, s, ClearedSlots(fields));
    var some := ReadMembers(fields, mask, depth, s, slots);
    && Whole(full, Object(s)) && Whole(some, Object(s))
    && forall i :: 0 <= i < |fields| ==>
         some.val[i] == if Selected(mask, fields[i].index) && Present(fields, ObjectMembers(s), i)
                        then Projected(fields[i], SubMask(mask, fields[i]), full.val[i]) else slots[i]
  }

  /** For every schema: values read exactly make every selective read agree with the full one. */
  lemma {:induction false} SelectiveRefinesFull(fields: seq<Field>, mask: Mask, depth: nat, s: bytes, slots: seq<Slot>)
    requires ShapedSlots(fields, slots) && Object(s).Some? && NamedOnce(fields, ObjectMembers(s)) && mask.words.Some?
    requires ObjectExact(fields, depth, s)
    ensures Agrees(fields, mask, depth, s, slots)
  {
    hide Next, ReadMembers, Apply, Selected, Projected, FromCleared, ObjectExact, Names, ShapedField, Object,
      ClearedField, NamedOnceInside, ObjectMembers;
    ClearedIsShaped(fields);
    var cleared := ClearedSlots(fields);
    var ms := ObjectMembers(s);
    ObjectApplied(fields, NO_MASK, depth, s, cleared);
    ObjectApplied(fields, mask, depth, s, slots);
    forall i | 0 <= i < |fields|
      ensures Apply(fields, mask, depth, ms, slots)[i]
              == if Selected(mask, fields[i].index) && Present(fields, ms, i)
                 then Projected(fields[i], SubMask(mask, fields[i]), Apply(fields, NO_MASK, depth, ms, cleared)[i]) else slots[i]
    {
      SlotProjects(fields, mask, depth, s, cleared, i);
      ApplyEffect(fields, mask, depth, ms, slots, i);
      ApplyEffect(fields, mask, depth, ms, cleared, i);
    }
  }

  /**
   On an object without a key, at any depth, that names a fixed array of structs, they agree under any mask
   and over any object if and only if every value is read exactly.
   */
  lemma {:induction false} AgreesIffExact(fields: seq<Field>, mask: Mask, depth: nat, s: bytes, slots: seq<Slot>)
    requires ShapedSlots(fields, slots) && Object(s).Some? && NamedOnce(fields, ObjectMembers(s)) && mask.words.Some?
    requires CalmFields(Some(Keys(s, |Object(s).value|)), fields)
    ensures Agrees(fields, mask, depth, s, slots) <==> ObjectExact(fields, depth, s)
  {
    hide Next, ReadMembers, ObjectExact, NamedOnce, ObjectMembers, CalmFields, ShapedSlots, Keys, Run;
    if ObjectExact(fields, depth, s) {
      SelectiveRefinesFull(fields, mask, depth, s, slots);
    } else if Agrees(fields, mask, depth, s, slots) {
      var names := Keys(s, |Object(s).value|);
      ClearedIsShaped(fields);
      if Next(s).kind != Punct(CLOSE_BRACE) {
        MembersAreNamed(First, s);
        KeysSuffice(names, Place(First, [Braced]), s, Members(s).value);
      }
      ObjectCaught(Some(names), fields, depth, s, ClearedSlots(fields));
    }
  }

  // ----- On any text -----

  /** Whatever the text, well-formed or not, a field that is not selected is not touched. */
  lemma {:induction false} UnselectedUntouched(fields: seq<Field>, mask: Mask, depth: nat, s: bytes,
        slots: seq<Slot>, i: nat)
    requires ShapedSlots(fields, slots) && i < |fields| && !Selected(mask, fields[i].index)
    ensures ReadMembers(fields, mask, depth, s, slots).val[i] == slots[i]
    decreases |s|
  {
    hide Next, Selected, ReadField, Count, ShapedField, CString;
    var l := Next(s);
    if l.kind == Punct(COMMA) {
      TokenMoves(s);
      UnselectedUntouched(fields, mask, depth, l.rest, slots, i);
    } else if l.kind == String && Next(l.rest).kind == Punct(COLON) {
      TokenMoves(s);
      var o := ReadMember(fields, mask, depth, l.text, Next(l.rest).rest, slots);
      assert o.val[i] == slots[i];
      if o.code == OKAY { UnselectedUntouched(fields, mask, depth, o.rest, o.val, i); }
    }
  }

  lemma {:induction false} ArrayFieldGivenObject(f: Field, sub: Mask, depth: nat, v: bytes, cur: Slot)
    requires ShapedField(f, cur.val) && f.shape.Dynamic? && f.item.Plain? && Next(v).kind == Punct(OPEN_BRACE)
    ensures ReadField(f, sub, depth, v, cur) == Out(OKAY, Slot(cur.has || f.flagged, ArrV([])), Next(v).rest)
  {
    hide Next;
  }

  /**
   An empty object where an array of scalars is expected is taken for the end of the struct: a full
   read succeeds there and leaves the rest unread, while a read that does not select the field goes
   on behind it.
   */
  lemma {:induction false} ObjectForArrayEndsTheStruct(fields: seq<Field>, mask: Mask, depth: nat, s: bytes,
        slots: seq<Slot>)
    requires ShapedSlots(fields, slots) && MemberValue(s).Some?
    requires var i := FindField(fields, CString(Next(s).text));
             && i >= 0 && fields[i].shape.Dynamic? && fields[i].item.Plain? && !Selected(mask, fields[i].index)
    requires var v := MemberValue(s).value; Next(v).kind == Punct(OPEN_BRACE) && Next(Next(v).rest).kind == Punct(CLOSE_BRACE)
    ensures var i := FindField(fields, CString(Next(s).text)); var t := Next(Next(MemberValue(s).value).rest).rest;
            && ReadMembers(fields, NO_MASK, depth, s, slots)
               == Out(OKAY, slots[i := Slot(slots[i].has || fields[i].flagged, ArrV([]))], t)
            && ReadMembers(fields, mask, depth, s, slots) == ReadMembers(fields, mask, depth, t, slots)
  {
    hide Next, CString, Selected, Count, ReadField, Elements, Members;
    var key := Next(s).text;
    var v := MemberValue(s).value;
    var f := fields[FindField(fields, CString(key))];
    AllSelected(f.index);
    var all := ReadMember(fields, NO_MASK, depth, key, v, slots);
    assert ShapedField(f, slots[FindField(fields, CString(key))].val);
    ArrayFieldGivenObject(f, NO_MASK, depth, v, slots[FindField(fields, CString(key))]);
    assert all.code == OKAY && all.rest == Next(v).rest;
    EmptyIsWhole(fields, NO_MASK, depth, all.rest, all.val);
    CountersFollowGrammar(v);
    assert ReadMember(fields, mask, depth, key, v, slots) == Out(OKAY, slots, Value(v).value);
  }
}
