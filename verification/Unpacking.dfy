/** What the emitted unpack functions leave in the destination, as functions of the unread bytes. */
module Unpacking {
  import opened Bytes
  import opened Wire
  import opened Schema
  import opened Packing

  /** The first field whose key is `key`: the emitted chain of comparisons. */
  function FindField(fields: seq<Field>, key: bytes): (i: int)
    ensures -1 <= i < |fields|
    ensures i >= 0 ==> fields[i].key == key
    ensures i == -1 <==> !HasKey(fields, key)
  {
    if fields == [] then -1
    else if fields[0].key == key then 0
    else
      var r := FindField(fields[1..], key);
      assert forall j :: 1 <= j < |fields| ==> fields[j] == fields[1..][j - 1];
      if r == -1 then -1 else r + 1
  }

  function IndexOf(names: seq<bytes>, name: bytes): (i: int)
    ensures -1 <= i < |names|
    ensures i >= 0 ==> names[i] == name
    ensures i == -1 <==> name !in names
  {
    if names == [] then -1
    else if names[0] == name then 0
    else var r := IndexOf(names[1..], name); if r == -1 then -1 else r + 1
  }

  /** Skips `n` items and ignores failures, as the emitted loops do. */
  function SkipLoosely(f: Format, s: bytes, n: nat): bytes
    decreases n
  {
    if n == 0 then s else SkipLoosely(f, Skip(f, s).rest, n - 1)
  }

  function UnpackInt(c: Codec, bits: nat, signed: bool, fromFloat: bool, s: bytes): Res<Value> {
    var r :=
      if signed then
        if fromFloat then DecNumberAsInt64(c.fmt, c.fp, s) else DecInt64(c.fmt, s)
      else
        if fromFloat then DecNumberAsUint64(c.fmt, c.fp, s) else DecUint64(c.fmt, s);
    match r
    case Err => Err
    case Ok(v, rest) => Ok(IntV(Wrap(bits, signed, v)), rest)
  }

  function UnpackEnum(c: Codec, names: seq<bytes>, s: bytes): (r: Res<Value>)
    requires |names| < TWO_TO_THE_31
    ensures r.Ok? ==> Typed(TEnum(names), r.val)
  {
    if s == [] then Err
    else if AtNil(c.fmt, s) then Ok(IntV(0), s[1..])
    else if LooksLikeInt(c.fmt, s[0]) then UnpackInt(c, 32, true, true, s)
    else
      match DecStr(c.fmt, s)
      case Err => Err
      case Ok(name, rest) =>
        var i := IndexOf(names, name);
        if i == -1 then Err else Ok(IntV(i), rest)
  }

  /** Reads one value into a destination that holds `cur`. */
  function UnpackVal(c: Codec, ty: Type, s: bytes, cur: Value): (r: Res<Value>)
    requires WellFormed(ty) && Typed(ty, cur)
    ensures r.Ok? ==> Typed(ty, r.val)
    decreases ty, 0, 0
  {
    match ty
    case TInt(bits, signed, fromFloat) => UnpackInt(c, bits, signed, fromFloat, s)
    case TBool => (match DecBool(c.fmt, s) case Err => Err case Ok(b, rest) => Ok(BoolV(b), rest))
    case TFloat => (match DecDouble(c.fmt, c.fp, s) case Err => Err case Ok(d, rest) => Ok(FloatV(c.fp.narrow(d)), rest))
    case TDouble => (match DecDouble(c.fmt, c.fp, s) case Err => Err case Ok(d, rest) => Ok(DoubleV(d), rest))
    case TStr => (match DecStr(c.fmt, s) case Err => Err case Ok(x, rest) => Ok(StrV(x), rest))
    case TEnum(names) => UnpackEnum(c, names, s)
    case TStruct(fields) =>
      // The nested reader starts here; the outer one is then advanced by skipping the item.
      (match UnpackSlots(c, fields, s, cur.slots)
       case None => Err
       case Some(slots) => AfterItem(c.fmt, s, StructV(slots)))
    case TOneof(tagKey, variants) =>
      (match UnpackOneof(c, tagKey, variants, s)
       case None => Err
       case Some(v) => AfterItem(c.fmt, s, v))
  }

  function AfterItem(f: Format, s: bytes, v: Value): Res<Value> {
    var k := Skip(f, s);
    if k.ok then Ok(v, k.rest) else Err
  }

  function UnpackOneof(c: Codec, tagKey: bytes, variants: seq<Variant>, s: bytes): (r: Option<Value>)
    requires WellFormed(TOneof(tagKey, variants))
    ensures r.Some? ==> Typed(TOneof(tagKey, variants), r.value)
    decreases variants, 0, 0
  {
    match DecMapHeader(c.fmt, s)
    case Err => None
    case Ok(n, rest) =>
      match FindTag(c.fmt, tagKey, Names(variants), rest, n, -1)
      case None => None
      case Some(tag) =>
        if !(0 <= tag < |variants|) then None
        else
          InitSlotsTyped(variants[tag].fields);
          match UnpackSlots(c, variants[tag].fields, s, InitSlots(variants[tag].fields))
          case None => None
          case Some(slots) => Some(OneofV(tag, StructV(slots)))
  }

  /** The first pass over a oneof's map: the last entry with the tag's key that names a variant. */
  function FindTag(f: Format, tagKey: bytes, names: seq<bytes>, s: bytes, n: nat, tag: int): Option<int>
    decreases n
  {
    if n == 0 then Some(tag)
    else
      match DecStr(f, s)
      case Err => None
      case Ok(key, rest) =>
        if key == tagKey then
          match DecStr(f, rest)
          case Err => None
          case Ok(name, rest') =>
            var i := IndexOf(names, name);
            FindTag(f, tagKey, names, rest', n - 1, if i == -1 then tag else i)
        else FindTag(f, tagKey, names, Skip(f, rest).rest, n - 1, tag)
  }

  /** Reads one element into each of `curs`. */
  function UnpackElems(c: Codec, ty: Type, s: bytes, curs: seq<Value>): (r: Res<seq<Value>>)
    requires WellFormed(ty) && forall e :: e in curs ==> Typed(ty, e)
    ensures r.Ok? ==> |r.val| == |curs| && forall e :: e in r.val ==> Typed(ty, e)
    decreases ty, 1, |curs|
  {
    if curs == [] then Ok([], s)
    else
      match UnpackVal(c, ty, s, curs[0])
      case Err => Err
      case Ok(v, rest) =>
        match UnpackElems(c, ty, rest, curs[1..])
        case Err => Err
        case Ok(vs, rest') => Ok([v] + vs, rest')
  }

  function UnpackMapEntries(c: Codec, ty: Type, s: bytes, n: nat): (r: Res<seq<(bytes, Value)>>)
    requires WellFormed(ty) && Flat(ty)
    ensures r.Ok? ==> forall e :: e in r.val ==> Typed(ty, e.1)
    decreases ty, 1, n
  {
    if n == 0 then Ok([], s)
    else
      match DecStr(c.fmt, s)
      case Err => Err
      case Ok(key, rest) =>
        ZeroIsTyped(ty);
        match UnpackVal(c, ty, rest, Zero(ty))
        case Err => Err
        case Ok(v, rest') =>
          match UnpackMapEntries(c, ty, rest', n - 1)
          case Err => Err
          case Ok(es, rest'') => Ok([(key, v)] + es, rest'')
  }

  function UnpackField(c: Codec, f: Field, s: bytes, cur: Value): (r: Res<Value>)
    requires WellFormedField(f) && TypedField(f, cur)
    ensures r.Ok? ==> TypedField(f, r.val)
    decreases f, 1, 0
  {
    match f.shape
    case Single => UnpackVal(c, f.ty, s, cur)
    case Fixed(size) =>
      (match DecArrayHeader(c.fmt, s)
       case Err => Err
       case Ok(count, rest) =>
         var n := if count < size then count else size;
         match UnpackElems(c, f.ty, rest, cur.elems[..n])
         case Err => Err
         case Ok(elems, rest') => Ok(ArrV(elems + cur.elems[n..]), SkipLoosely(c.fmt, rest', count - n)))
    case Dynamic =>
      (match DecArrayHeader(c.fmt, s)
       case Err => Err
       case Ok(count, rest) =>
         ZeroIsTyped(f.ty);
         match UnpackElems(c, f.ty, rest, Repeat(count, Zero(f.ty)))
         case Err => Err
         case Ok(elems, rest') => Ok(ArrV(elems), rest'))
    case Map =>
      (match DecMapHeader(c.fmt, s)
       case Err => Err
       case Ok(count, rest) =>
         match UnpackMapEntries(c, f.ty, rest, count)
         case Err => Err
         case Ok(entries, rest') => Ok(MapV(entries), rest'))
  }

  function UnpackSlot(c: Codec, f: Field, s: bytes, cur: Slot): (r: Res<Slot>)
    requires WellFormedField(f) && TypedField(f, cur.val)
    ensures r.Ok? ==> TypedField(f, r.val.val)
    decreases f, 2, 0
  {
    if f.nullable && AtNil(c.fmt, s) then Ok(Slot(false, cur.val), s[1..])
    else
      match UnpackField(c, f, s, cur.val)
      case Err => Err
      case Ok(v, rest) => Ok(Slot(if f.nullable || f.optional then true else cur.has, v), rest)
  }

  /** Reads one entry. A struct without fields has no branch that skips a value. */
  function UnpackEntry(c: Codec, fields: seq<Field>, s: bytes, cur: seq<Slot>): (r: Res<seq<Slot>>)
    requires WellFormedFields(fields) && TypedSlots(fields, cur)
    ensures r.Ok? ==> TypedSlots(fields, r.val)
    decreases fields, 2, 0
  {
    match DecStr(c.fmt, s)
    case Err => Err
    case Ok(key, rest) =>
      var i := FindField(fields, key);
      if i >= 0 then
        assert WellFormedField(fields[i]) && TypedField(fields[i], cur[i].val);
        match UnpackSlot(c, fields[i], rest, cur[i])
        case Err => Err
        case Ok(slot, rest') => Ok(cur[i := slot], rest')
      else if fields == [] then Ok(cur, rest)
      else Ok(cur, Skip(c.fmt, rest).rest)
  }

  function UnpackEntries(c: Codec, fields: seq<Field>, s: bytes, n: nat, cur: seq<Slot>): (r: Option<seq<Slot>>)
    requires WellFormedFields(fields) && TypedSlots(fields, cur)
    ensures r.Some? ==> TypedSlots(fields, r.value)
    decreases fields, 3, n
  {
    if n == 0 then Some(cur)
    else
      match UnpackEntry(c, fields, s, cur)
      case Err => None
      case Ok(slots, rest) => UnpackEntries(c, fields, rest, n - 1, slots)
  }

  function UnpackSlots(c: Codec, fields: seq<Field>, s: bytes, cur: seq<Slot>): (r: Option<seq<Slot>>)
    requires WellFormedFields(fields) && TypedSlots(fields, cur)
    ensures r.Some? ==> TypedSlots(fields, r.value)
    decreases fields, 4, 0
  {
    match DecMapHeader(c.fmt, s)
    case Err => None
    case Ok(n, rest) => UnpackEntries(c, fields, rest, n, cur)
  }

  /** The wrapper that unpacks such an array: every element is initialised before it is read. */
  function UnpackArray(c: Codec, ty: Type, s: bytes): Option<seq<Value>>
    requires WellFormed(ty)
  {
    match DecArrayHeader(c.fmt, s)
    case Err => None
    case Ok(n, rest) =>
      InitIsTyped(ty);
      match UnpackElems(c, ty, rest, Repeat(n, Init(ty)))
      case Err => None
      case Ok(objs, _) => Some(objs)
  }
}
