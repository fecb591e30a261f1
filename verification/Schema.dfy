/**
 Schemas and the objects of the structs generated from them. A named type is replaced by its
 definition, so every acyclic schema is one of these finite trees.
 */
module Schema {
  import opened Bytes

  /** `fromFloat` marks the integer kinds whose reader also takes a float. */
  datatype Type =
    | TInt(bits: nat, signed: bool, fromFloat: bool)
    | TBool
    | TFloat
    | TDouble
    | TStr
    | TEnum(names: seq<bytes>)
    | TStruct(fields: seq<Field>)
    | TOneof(tagKey: bytes, variants: seq<Variant>)

  datatype Variant = Variant(name: bytes, fields: seq<Field>)

  datatype Shape = Single | Fixed(size: nat) | Dynamic | Map

  /** For a map field `ty` is the type of the entries' values. */
  datatype Field = Field(key: bytes, ty: Type, shape: Shape, optional: bool, nullable: bool, dflt: Option<Value>)

  /** A union holds the struct of its current variant; floats are held as bit patterns. */
  datatype Value =
    | IntV(i: int)
    | BoolV(b: bool)
    | FloatV(f: u32)
    | DoubleV(d: u64)
    | StrV(s: bytes)
    | StructV(slots: seq<Slot>)
    | OneofV(tag: int, val: Value)
    | ArrV(elems: seq<Value>)
    | MapV(entries: seq<(bytes, Value)>)

  /** A field of an object with its presence flag, which only optional and nullable fields have. */
  datatype Slot = Slot(has: bool, val: Value)

  // ----- C integers -----

  function Modulus(bits: nat): int {
    if bits == 8 then TWO_TO_THE_8
    else if bits == 16 then TWO_TO_THE_16
    else if bits == 32 then TWO_TO_THE_32
    else TWO_TO_THE_64
  }

  predicate InWidth(bits: nat, signed: bool, v: int) {
    if signed then -(Modulus(bits) / 2) <= v < Modulus(bits) / 2 else 0 <= v < Modulus(bits)
  }

  /** The conversion of an integer to a C integer type. */
  function Wrap(bits: nat, signed: bool, v: int): (w: int)
    ensures InWidth(bits, signed, w)
    ensures InWidth(bits, signed, v) ==> w == v
  {
    var m := v % Modulus(bits);
    if signed && m >= Modulus(bits) / 2 then m - Modulus(bits) else m
  }

  // ----- Objects of a schema -----

  /** `v` is a value of the C type generated for `ty`. */
  predicate Typed(ty: Type, v: Value)
    decreases ty, 0
  {
    match ty
    case TInt(bits, signed, _) => v.IntV? && InWidth(bits, signed, v.i)
    case TBool => v.BoolV?
    case TFloat => v.FloatV?
    case TDouble => v.DoubleV?
    case TStr => v.StrV?
    case TEnum(_) => v.IntV? && InWidth(32, true, v.i)
    case TStruct(fields) => v.StructV? && TypedSlots(fields, v.slots)
    case TOneof(_, variants) =>
      && v.OneofV? && InWidth(32, true, v.tag)
      && (0 <= v.tag < |variants| ==> v.val.StructV? && TypedSlots(variants[v.tag].fields, v.val.slots))
  }

  predicate TypedField(f: Field, v: Value)
    decreases f
  {
    match f.shape
    case Single => Typed(f.ty, v)
    case Fixed(n) => v.ArrV? && |v.elems| == n && forall e :: e in v.elems ==> Typed(f.ty, e)
    case Dynamic => v.ArrV? && forall e :: e in v.elems ==> Typed(f.ty, e)
    case Map => v.MapV? && forall e :: e in v.entries ==> Typed(f.ty, e.1)
  }

  predicate TypedSlots(fields: seq<Field>, slots: seq<Slot>)
    decreases fields
  {
    |slots| == |fields| && forall i :: 0 <= i < |fields| ==> TypedField(fields[i], slots[i].val)
  }

  /** A field that goes on the wire: an optional one only when its flag is set. */
  predicate OnWire(f: Field, slot: Slot) {
    !f.optional || slot.has
  }

  predicate Flat(ty: Type) {
    !ty.TStruct? && !ty.TOneof?
  }

  // ----- What the generator and its schema checks guarantee -----

  predicate Distinct<T(==)>(s: seq<T>) {
    forall i, j :: 0 <= i < j < |s| ==> s[i] != s[j]
  }

  predicate ShortNames(names: seq<bytes>) {
    |names| < TWO_TO_THE_31 && Distinct(names) && forall n :: n in names ==> |n| < TWO_TO_THE_31
  }

  predicate HasKey(fields: seq<Field>, key: bytes) {
    exists i :: 0 <= i < |fields| && fields[i].key == key
  }

  function Names(variants: seq<Variant>): (ns: seq<bytes>)
    ensures |ns| == |variants| && forall i :: 0 <= i < |ns| ==> ns[i] == variants[i].name
  {
    seq(|variants|, i requires 0 <= i < |variants| => variants[i].name)
  }

  /** Maps hold flat values, keys and names are distinct, and no variant uses the tag's key. */
  predicate WellFormed(ty: Type)
    decreases ty
  {
    match ty
    case TInt(bits, _, _) => bits in {8, 16, 32, 64}
    case TEnum(names) => ShortNames(names)
    case TStruct(fields) => WellFormedFields(fields)
    case TOneof(tagKey, variants) =>
      && |tagKey| < TWO_TO_THE_31 && ShortNames(Names(variants))
      && forall i :: 0 <= i < |variants| ==>
                       WellFormedFields(variants[i].fields) && !HasKey(variants[i].fields, tagKey)
    case _ => true
  }

  predicate WellFormedField(f: Field)
    decreases f
  {
    && |f.key| < TWO_TO_THE_31 && WellFormed(f.ty)
    && (f.shape.Map? ==> Flat(f.ty))
    && (f.shape.Fixed? ==> f.shape.size < TWO_TO_THE_31)
    && (f.dflt.Some? ==> f.shape.Single? && Flat(f.ty) && Typed(f.ty, f.dflt.value))
  }

  predicate WellFormedFields(fields: seq<Field>)
    decreases fields
  {
    && |fields| < TWO_TO_THE_31 - 1
    && (forall i, j :: 0 <= i < j < |fields| ==> fields[i].key != fields[j].key)
    && (forall i :: 0 <= i < |fields| ==> WellFormedField(fields[i]))
  }

  // ----- Fresh objects -----

  /** The all-zero object. */
  function Zero(ty: Type): (v: Value)
    decreases ty
  {
    match ty
    case TBool => BoolV(false)
    case TFloat => FloatV(0)
    case TDouble => DoubleV(0)
    case TStr => StrV([])
    case TStruct(fields) => StructV(ZeroSlots(fields))
    case TOneof(_, variants) => OneofV(0, if variants == [] then IntV(0) else StructV(ZeroSlots(variants[0].fields)))
    case _ => IntV(0)
  }

  function ZeroField(f: Field): Value
    decreases f
  {
    match f.shape
    case Single => Zero(f.ty)
    case Fixed(n) => ArrV(Repeat(n, Zero(f.ty)))
    case Dynamic => ArrV([])
    case Map => MapV([])
  }

  function ZeroSlots(fields: seq<Field>): (slots: seq<Slot>)
    ensures |slots| == |fields|
    ensures forall i :: 0 <= i < |fields| ==> slots[i] == Slot(false, ZeroField(fields[i]))
    decreases fields
  {
    if fields == [] then [] else [Slot(false, ZeroField(fields[0]))] + ZeroSlots(fields[1..])
  }

  /** What the generated `_init` leaves: zero, then declared defaults, then nested structs likewise. */
  function InitField(f: Field): Value
    decreases f
  {
    if f.dflt.Some? then f.dflt.value
    else if f.shape.Single? && f.ty.TStruct? then StructV(InitSlots(f.ty.fields))
    else ZeroField(f)
  }

  function InitSlots(fields: seq<Field>): (slots: seq<Slot>)
    ensures |slots| == |fields|
    ensures forall i :: 0 <= i < |fields| ==> slots[i] == Slot(false, InitField(fields[i]))
    decreases fields
  {
    if fields == [] then [] else [Slot(false, InitField(fields[0]))] + InitSlots(fields[1..])
  }

  lemma {:induction false} ZeroIsTyped(ty: Type)
    requires WellFormed(ty)
    ensures Typed(ty, Zero(ty))
    decreases ty
  {
    if ty.TStruct? {
      ZeroSlotsTyped(ty.fields);
    } else if ty.TOneof? && ty.variants != [] {
      ZeroSlotsTyped(ty.variants[0].fields);
    }
  }

  lemma {:induction false} ZeroSlotsTyped(fields: seq<Field>)
    requires WellFormedFields(fields)
    ensures TypedSlots(fields, ZeroSlots(fields))
    decreases fields
  {
    forall i | 0 <= i < |fields| ensures TypedField(fields[i], ZeroSlots(fields)[i].val) {
      assert WellFormedField(fields[i]);
      ZeroIsTyped(fields[i].ty);
    }
  }

  lemma {:induction false} InitSlotsTyped(fields: seq<Field>)
    requires WellFormedFields(fields)
    ensures TypedSlots(fields, InitSlots(fields))
    decreases fields
  {
    forall i | 0 <= i < |fields| ensures TypedField(fields[i], InitSlots(fields)[i].val) {
      var f := fields[i];
      assert WellFormedField(f);
      if f.shape.Single? && f.ty.TStruct? {
        assert WellFormed(f.ty);
        InitSlotsTyped(f.ty.fields);
      } else {
        ZeroIsTyped(f.ty);
      }
    }
  }

  /** What `_init` makes of the zeroed storage of a struct or a union. */
  function Init(ty: Type): Value {
    if ty.TStruct? then StructV(InitSlots(ty.fields)) else Zero(ty)
  }

  lemma {:induction false} InitIsTyped(ty: Type)
    requires WellFormed(ty)
    ensures Typed(ty, Init(ty))
  {
    if ty.TStruct? { InitSlotsTyped(ty.fields); } else { ZeroIsTyped(ty); }
  }
}
