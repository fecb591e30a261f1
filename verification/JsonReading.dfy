/**
 What the JSON runtime's readers return and leave behind: the loop over an object's members and the
 readers of scalars, arrays, maps, unions and nested structs, as functions of the text.
 */
module JsonReading {
  import opened Bytes
  import opened JsonLex
  import opened JsonSkip
  import opened JsonTag
  import opened JsonFields
  import Decimal

  const JSON_MAX_DEPTH := 256

  /** What a C reader returns; `Hang` never returns. */
  datatype Code = Ret(r: int) | Hang

  const OKAY := Ret(0)
  const FAILED := Ret(-1)
  const PARSE_ERROR := Ret(-4)

  /** A result, what was read, and where the cursor stands. */
  datatype Out<+T> = Out(code: Code, val: T, rest: bytes)

  /** A token's number: the end of the text is 0, and readers that pass it up report success. */
  function TokenNumber(k: Kind): int {
    match k
    case Error => -1
    case Eof => 0
    case String => 1
    case Int => 2
    case Float => 3
    case True => 4
    case False => 5
    case Null => 6
    case Punct(c) => c
  }

  // ----- Scalars -----

  /** A number the C library takes to its end: digits before or behind the point, and in the exponent if there is one. */
  predicate IsNumeral(text: bytes) {
    && StartsNumber(text)
    && var w := WholeEnd(text);
       var f := FractionEnd(text, w);
       var e := ExponentEnd(text, f);
       var signed := text[0] == MINUS;
       var digits := (w - if signed then 1 else 0) + if f > w then f - w - 1 else 0;
       && e == |text| && digits > 0
       && (e > f ==> e > f + 1 + if f + 1 < e && (text[f + 1] == PLUS || text[f + 1] == MINUS) then 1 else 0)
  }

  function Accepted(r: Option<Datum>, cur: Datum, rest: bytes): Out<Datum> {
    match r
    case None => Out(FAILED, cur, rest)
    case Some(v) => Out(OKAY, v, rest)
  }

  function AsInt(r: Option<int>): Option<Datum> {
    match r
    case None => None
    case Some(i) => Some(IntV(i))
  }

  function AsIndex(i: int): Option<Datum> {
    if i == -1 then None else Some(IntV(i))
  }

  /** Always one token. */
  function ReadScalar(ty: Scalar, s: bytes, cur: Datum): (o: Out<Datum>)
    ensures o.rest == Next(s).rest && o.code.Ret?
  {
    var l := Next(s);
    match ty
    case Integer(bits, signed) =>
      if l.kind == False then Out(OKAY, IntV(0), l.rest)
      else if l.kind == True then Out(OKAY, IntV(1), l.rest)
      else if l.kind != Kind.Int then Out(Ret(TokenNumber(l.kind)), cur, l.rest)
      else Accepted(AsInt(Decimal.ReadInt(bits, signed, l.text)), cur, l.rest)
    case Float =>
      if l.kind != Kind.Float && l.kind != Kind.Int then Out(Ret(TokenNumber(l.kind)), cur, l.rest)
      else Accepted(if IsNumeral(l.text) then Some(FloatV(l.text)) else None, cur, l.rest)
    case Text =>
      if l.kind == Null then Out(OKAY, StrV(None), l.rest)
      else if l.kind != String then Out(Ret(TokenNumber(l.kind)), StrV(None), l.rest)
      else Out(OKAY, StrV(Some(l.text)), l.rest)
    case Enumeration(names) =>
      if l.kind == String then Accepted(AsIndex(NameIndex(names, CString(l.text))), cur, l.rest)
      else if l.kind == Kind.Int then Accepted(AsInt(Decimal.ReadInt(32, true, l.text)), cur, l.rest)
      else Out(Ret(TokenNumber(l.kind)), cur, l.rest)
  }

  // ----- Maps -----

  /** The entry loop. An entry whose value is of another kind is kept, its value never written. */
  function ReadEntries(ty: Scalar, s: bytes, done: seq<(bytes, Datum)>): (o: Out<seq<(bytes, Datum)>>)
    ensures |o.rest| <= |s| && o.code.Ret?
    decreases |s|
  {
    var l := Next(s);
    if l.kind == Punct(CLOSE_BRACE) then Out(OKAY, done, l.rest)
    else if l.kind == Punct(COMMA) then ReadEntries(ty, l.rest, done)
    else if l.kind != String || Next(l.rest).kind != Punct(COLON) then Out(FAILED, done, l.rest)
    else
      var e := ReadScalar(ty, Next(l.rest).rest, Unwritten);
      if e.code.r < 0 then Out(e.code, done, e.rest)
      else ReadEntries(ty, e.rest, done + [(l.text, e.val)])
  }

  function ReadMap(ty: Scalar, s: bytes, cur: seq<(bytes, Datum)>): (o: Out<seq<(bytes, Datum)>>)
    ensures |o.rest| <= |s| && o.code.Ret?
  {
    var l := Next(s);
    if l.kind == Null then Out(OKAY, cur, l.rest)
    else if l.kind != Punct(OPEN_BRACE) then Out(FAILED, cur, l.rest)
    else ReadEntries(ty, l.rest, cur)
  }

  /** An array of maps, from an element's place on. */
  function ReadMaps(ty: Scalar, s: bytes, done: seq<Datum>): (o: Out<seq<Datum>>)
    ensures |o.rest| <= |s|
    decreases |s|
  {
    if Next(s).kind == Punct(CLOSE_BRACKET) then Out(OKAY, done, Next(s).rest)
    else
      var e := ReadMap(ty, s, []);
      if e.code == Hang || e.code.r < 0 then Out(e.code, done, e.rest)
      else
        var l := Next(e.rest);
        if l.kind == Punct(CLOSE_BRACKET) then Out(OKAY, done + [MapV(e.val)], l.rest)
        else if l.kind == Punct(COMMA) then ReadMaps(ty, l.rest, done + [MapV(e.val)])
        else Out(FAILED, done, l.rest)
  }

  // ----- Arrays of enums -----

  /**
   The loop over enum names, where commas may stand anywhere or nowhere. An error loses all
   elements, and the end of the text reads as an element again and again.
   */
  function ReadEnums(names: seq<bytes>, s: bytes, done: seq<Datum>): (o: Out<seq<Datum>>)
    ensures |o.rest| <= |s|
    decreases |s|
  {
    var l := Next(s);
    if l.kind == Punct(CLOSE_BRACKET) then Out(OKAY, done, l.rest)
    else if l.kind == Punct(COMMA) then ReadEnums(names, l.rest, done)
    else if l.kind == Eof then Out(Hang, [], l.rest)
    else
      var e := ReadScalar(Enumeration(names), s, IntV(0));
      if e.code != OKAY then Out(e.code, [], e.rest) else ReadEnums(names, e.rest, done + [e.val])
  }

  function ReadEnumArray(names: seq<bytes>, s: bytes): (o: Out<seq<Datum>>)
    ensures |o.rest| <= |s|
  {
    var l := Next(s);
    if l.kind == Null then Out(OKAY, [], l.rest)
    else if l.kind != Punct(OPEN_BRACKET) then Out(FAILED, [], l.rest)
    else ReadEnums(names, l.rest, [])
  }

  // ----- Structs and unions -----

  /** `inArray` readers take the end of the text for an object and report a closing bracket as 1. */
  function ReadStruct(fields: seq<Field>, mask: Mask, depth: nat, inArray: bool, s: bytes,
        slots: seq<Slot>): (o: Out<seq<Slot>>)
    requires ShapedSlots(fields, slots)
    ensures |o.rest| <= |s| && ShapedSlots(fields, o.val)
    ensures o.code == OKAY && Next(s).kind != Eof ==> |o.rest| < |s|
    decreases fields, |s|, 1
  {
    if depth > JSON_MAX_DEPTH then Out(FAILED, slots, s)
    else
      var l := Next(s);
      if inArray && l.kind == Eof then Out(OKAY, slots, l.rest)
      else if inArray && l.kind == Punct(CLOSE_BRACKET) then Out(Ret(1), slots, l.rest)
      else if l.kind != Punct(OPEN_BRACE) then Out(FAILED, slots, l.rest)
      else ReadMembers(fields, mask, depth, l.rest, slots)
  }

  /** The loop over the members. */
  function ReadMembers(fields: seq<Field>, mask: Mask, depth: nat, s: bytes, slots: seq<Slot>): (o: Out<seq<Slot>>)
    requires ShapedSlots(fields, slots)
    ensures |o.rest| <= |s| && ShapedSlots(fields, o.val)
    decreases fields, |s|, 0
  {
    var l := Next(s);
    if l.kind == Punct(CLOSE_BRACE) then Out(OKAY, slots, l.rest)
    else if l.kind == Punct(COMMA) then
      var t := SkipGap(l.rest);
      if t != [] && t[0] == CLOSE_BRACE then Out(FAILED, slots, l.rest)
      else ReadMembers(fields, mask, depth, l.rest, slots)
    else if l.kind != String || Next(l.rest).kind != Punct(COLON) then Out(FAILED, slots, l.rest)
    else
      var o := ReadMember(fields, mask, depth, l.text, Next(l.rest).rest, slots);
      if o.code == OKAY then ReadMembers(fields, mask, depth, o.rest, o.val) else o
  }

  /** One member's value, from behind its colon. */
  function ReadMember(fields: seq<Field>, mask: Mask, depth: nat, key: bytes, v: bytes,
        slots: seq<Slot>): (o: Out<seq<Slot>>)
    requires ShapedSlots(fields, slots)
    ensures |o.rest| <= |v| && ShapedSlots(fields, o.val)
    decreases fields, |v|, 0
  {
    var i := FindField(fields, CString(key));
    if i < 0 || !Selected(mask, fields[i].index) then
      match Count(v, 0, 0)
      case Skipped(rest) => Out(OKAY, slots, rest)
      case AtEnd => Out(FAILED, slots, v)
      case Forever => Out(Hang, slots, v)
    else
      var f := fields[i];
      ClearedFieldIsShaped(f);
      var cur := if mask.words.Some? then ClearedField(f) else slots[i];
      if f.nullable && Next(v).kind == Null then Out(OKAY, slots[i := cur], Next(v).rest)
      else
        var o := ReadField(f, FindNested(mask.nested, f.index), depth, v, cur);
        Out(o.code, slots[i := o.val], o.rest)
  }

  /** Pass one finds the variant, pass two reads the same object as the variant's struct. */
  function ReadUnion(tagKey: bytes, variants: seq<Variant>, depth: nat, s: bytes, cur: Datum): (o: Out<Datum>)
    requires ShapedItem(Union(tagKey, variants), cur)
    ensures |o.rest| <= |s| && ShapedItem(Union(tagKey, variants), o.val)
    ensures o.code == OKAY && Next(s).kind != Eof ==> |o.rest| < |s|
    decreases variants, |s|, 1
  {
    var l := Next(s);
    if l.kind == Eof then Out(OKAY, cur, l.rest)
    else if l.kind != Punct(OPEN_BRACE) then Out(FAILED, cur, l.rest)
    else
      match ScanTag(ByCounters, l.rest, tagKey)
      case Absent => Out(FAILED, cur, l.rest)
      case Hangs => Out(Hang, cur, l.rest)
      case Found(text) =>
        var k := NameIndex(VariantNames(variants), CString(text));
        if k < 0 then Out(FAILED, cur, l.rest) else ReadVariant(variants, k, depth, s, cur)
  }

  function ReadVariant(variants: seq<Variant>, k: nat, depth: nat, s: bytes, cur: Datum): (o: Out<Datum>)
    requires k < |variants| && cur.UnionV? && (0 <= cur.tag < |variants| ==> ShapedVariant(variants[cur.tag], cur.variant))
    ensures |o.rest| <= |s| && o.val.UnionV? && o.val.tag == k && ShapedVariant(variants[k], o.val.variant)
    ensures o.code == OKAY && Next(s).kind == Punct(OPEN_BRACE) ==> |o.rest| < |s|
    decreases variants, |s|, 0
  {
    ClearedVariantIsShaped(variants[k]);
    var o := ReadAsVariant(variants[k], depth + 1, s, if cur.tag == k then cur.variant else ClearedVariant(variants[k]));
    Out(if o.code == Hang then Hang else if o.code.r < 0 then FAILED else OKAY, UnionV(k, o.val), o.rest)
  }

  function ReadAsVariant(w: Variant, depth: nat, s: bytes, slots: seq<Slot>): (o: Out<seq<Slot>>)
    requires ShapedVariant(w, slots)
    ensures |o.rest| <= |s| && ShapedVariant(w, o.val)
    ensures o.code.Ret? && o.code.r >= 0 && Next(s).kind == Punct(OPEN_BRACE) ==> |o.rest| < |s|
    decreases w, |s|, 2
  {
    ReadStruct(w.fields, NO_MASK, depth, false, s, slots)
  }

  // ----- Arrays -----

  /** One element of a fixed array, or of a dynamic one but for enums, unions and maps. */
  function ReadElement(it: Item, depth: nat, s: bytes, cur: Datum): (o: Out<Datum>)
    requires ShapedItem(it, cur)
    ensures |o.rest| <= |s| && ShapedItem(it, o.val)
    decreases it, |s|, 1
  {
    match it
    case Plain(scalar) => ReadScalar(scalar, s, cur)
    case Nested(fields) =>
      var o := ReadStruct(fields, NO_MASK, depth + 1, true, s, cur.slots);
      Out(o.code, StructV(o.val), o.rest)
    case Union(tagKey, variants) => ReadUnion(tagKey, variants, depth + 1, s, cur)
    case Map(_) => Out(FAILED, cur, s)
  }

  /**
   The three loops that read an element and then one token: which result of the element ends them, and
   what an early end is.
   */
  datatype Loop = Scalars | Structs | Inline

  function Stop(loop: Loop): int {
    if loop == Structs then 1 else CLOSE_BRACKET
  }

  function Broken(loop: Loop): Code {
    if loop == Structs then PARSE_ERROR else FAILED
  }

  /**
   From an element's place on. `held` is what a fixed array still holds, and bounds it; dynamic ones
   start every element blank.
   */
  function ReadPairs(loop: Loop, it: Item, depth: nat, s: bytes, held: seq<Datum>, done: seq<Datum>): (o: Out<seq<Datum>>)
    requires (forall e :: e in held ==> ShapedItem(it, e)) && (forall e :: e in done ==> ShapedItem(it, e))
    ensures |o.rest| <= |s| && forall e :: e in o.val ==> ShapedItem(it, e)
    ensures loop == Inline ==> |o.val| == |done| + |held|
    decreases it, |s|, 3
  {
    if loop == Inline && held == [] then Out(FAILED, done, s)
    else
      ClearedItemIsShaped(it);
      var e := ReadElement(it, depth, s, if loop == Inline then held[0] else ClearedItem(it));
      var more := if loop == Inline then held[1..] else [];
      if e.code == Hang || e.code.r < 0 then Out(e.code, if loop == Inline then done + [e.val] + more else done, e.rest)
      else if e.code.r == Stop(loop) then Out(OKAY, if loop == Scalars then done else done + [e.val] + more, e.rest)
      else ReadSeparator(loop, it, depth, e.rest, more, done + [e.val])
  }

  /** Between two elements: any token will do. */
  function ReadSeparator(loop: Loop, it: Item, depth: nat, s: bytes, held: seq<Datum>,
        done: seq<Datum>): (o: Out<seq<Datum>>)
    requires (forall e :: e in held ==> ShapedItem(it, e)) && (forall e :: e in done ==> ShapedItem(it, e))
    ensures |o.rest| <= |s| && forall e :: e in o.val ==> ShapedItem(it, e)
    ensures loop == Inline ==> |o.val| == |done| + |held|
    decreases it, |s|, 2
  {
    var l := Next(s);
    if l.kind == Punct(CLOSE_BRACKET) then Out(OKAY, done + held, l.rest)
    else if l.kind == Error || l.kind == Eof then Out(Broken(loop), done + held, l.rest)
    else ReadPairs(loop, it, depth, l.rest, held, done)
  }

  /** An array of unions, from an element's place on: only a comma or the closing bracket is taken between elements. */
  function ReadUnions(tagKey: bytes, variants: seq<Variant>, depth: nat, s: bytes, done: seq<Datum>): (o: Out<seq<Datum>>)
    ensures |o.rest| <= |s|
    decreases variants, |s|, 2
  {
    if Next(s).kind == Punct(CLOSE_BRACKET) then Out(OKAY, done, Next(s).rest)
    else
      ClearedItemIsShaped(Union(tagKey, variants));
      var e := ReadUnion(tagKey, variants, depth + 1, s, ClearedItem(Union(tagKey, variants)));
      if e.code != OKAY then Out(e.code, [], e.rest)
      else
        var l := Next(e.rest);
        if l.kind == Punct(CLOSE_BRACKET) then Out(OKAY, done + [e.val], l.rest)
        else if l.kind == Error || l.kind == Eof then Out(FAILED, [], l.rest)
        else ReadUnions(tagKey, variants, depth, if l.kind == Punct(COMMA) then l.rest else e.rest, done + [e.val])
  }

  // ----- Fields -----

  function Put(o: Out<Datum>, f: Field, cur: Slot): Out<Slot> {
    Out(o.code, Slot(if o.code == OKAY then cur.has || f.flagged else cur.has, o.val), o.rest)
  }

  /** A field's value by its shape and kind. */
  function ReadField(f: Field, sub: Mask, depth: nat, v: bytes, cur: Slot): (o: Out<Slot>)
    requires ShapedField(f, cur.val)
    ensures |o.rest| <= |v| && ShapedField(f, o.val.val)
    decreases f, |v|, 3
  {
    match f.shape
    case Single => Put(ReadSingle(f.item, sub, depth, v, cur.val), f, cur)
    case Fixed(_) => ReadFixed(f, depth, v, cur)
    case Dynamic => ReadDynamic(f, depth, v, cur)
  }

  /** Of a nested struct's results only -1 counts as an error. */
  function ReadSingle(it: Item, sub: Mask, depth: nat, v: bytes, cur: Datum): (o: Out<Datum>)
    requires ShapedItem(it, cur)
    ensures |o.rest| <= |v| && ShapedItem(it, o.val)
    decreases it, |v|, 3
  {
    match it
    case Plain(scalar) => ReadScalar(scalar, v, cur)
    case Nested(fields) =>
      var o := ReadStruct(fields, sub, depth + 1, false, v, cur.slots);
      Out(if o.code == FAILED || o.code == Hang then o.code else OKAY, StructV(o.val), o.rest)
    case Union(tagKey, variants) => ReadUnion(tagKey, variants, depth + 1, v, cur)
    case Map(value) =>
      var o := ReadMap(value, v, cur.entries);
      Out(o.code, MapV(o.val), o.rest)
  }

  /**
   An empty array leaves field and flag as they were. For maps the branch of dynamic arrays comes first
   and misses the length field before it reads anything.
   */
  function ReadFixed(f: Field, depth: nat, v: bytes, cur: Slot): (o: Out<Slot>)
    requires f.shape.Fixed? && ShapedField(f, cur.val)
    ensures |o.rest| <= |v| && ShapedField(f, o.val.val)
    decreases f, |v|, 2
  {
    if f.item.Map? then Out(FAILED, cur, v)
    else
      var l := Next(v);
      if l.kind != Punct(OPEN_BRACKET) then Out(FAILED, cur, l.rest)
      else if Next(l.rest).kind == Punct(CLOSE_BRACKET) then Out(OKAY, cur, Next(l.rest).rest)
      else
        var o := ReadPairs(Inline, f.item, depth, l.rest, cur.val.elems, []);
        Out(o.code, Slot(if o.code == OKAY then cur.has || f.flagged else cur.has, ArrV(o.val)), o.rest)
  }

  function PutArray(o: Out<seq<Datum>>, f: Field, cur: Slot): Out<Slot> {
    if o.code == OKAY then Out(OKAY, Slot(cur.has || f.flagged, ArrV(o.val)), o.rest) else Out(o.code, cur, o.rest)
  }

  /** Behind the opening bracket of a dynamic array. */
  function ReadArray(it: Item, depth: nat, s: bytes): (o: Out<seq<Datum>>)
    ensures |o.rest| <= |s|
    decreases it, |s|, 4
  {
    match it
    case Plain(_) => ReadPairs(Scalars, it, depth, s, [], [])
    case Nested(_) =>
      if Next(s).kind == Punct(CLOSE_BRACKET) then Out(OKAY, [], Next(s).rest) else ReadPairs(Structs, it, depth, s, [], [])
    case Union(tagKey, variants) => ReadUnions(tagKey, variants, depth, s, [])
    case Map(value) => ReadMaps(value, s, [])
  }

  /** The results of scalar and enum arrays are dropped; the others' are passed up. */
  function ReadDynamic(f: Field, depth: nat, v: bytes, cur: Slot): (o: Out<Slot>)
    requires cur.val.ArrV?
    ensures |o.rest| <= |v| && o.val.val.ArrV?
    decreases f, |v|, 2
  {
    var l := Next(v);
    var open := l.kind == Punct(OPEN_BRACKET);
    match f.item
    case Plain(scalar) =>
      var o := match scalar
               case Enumeration(names) => ReadEnumArray(names, v)
               case _ => if open then ReadArray(f.item, depth, l.rest) else Out(FAILED, [], l.rest);
      if o.code == Hang then Out(Hang, cur, o.rest)
      else Out(OKAY, Slot(cur.has || f.flagged, ArrV(o.val)), o.rest)
    case Nested(_) => if open then PutArray(ReadArray(f.item, depth, l.rest), f, cur) else Out(PARSE_ERROR, cur, l.rest)
    case Union(_, _) =>
      if l.kind == Null then PutArray(Out(OKAY, [], l.rest), f, cur)
      else if open then PutArray(ReadArray(f.item, depth, l.rest), f, cur)
      else Out(FAILED, cur, l.rest)
    case Map(_) =>
      if l.kind == Null then Out(OKAY, cur, l.rest)
      else if open then PutArray(ReadArray(f.item, depth, l.rest), f, cur)
      else Out(FAILED, cur, l.rest)
  }
}
