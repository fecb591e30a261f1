/** What the JSON runtime knows of a struct: its fields, the storage behind them, and which are selected. */
module JsonFields {
  import opened Bytes

  // ----- Fields -----

  /** Booleans are 32-bit integers here; a float is held as the text it was read from. */
  datatype Scalar = Integer(bits: nat, signed: bool) | Float | Text | Enumeration(names: seq<bytes>)

  datatype Variant = Variant(name: bytes, fields: seq<Field>)

  datatype Item =
    | Plain(scalar: Scalar)
    | Nested(fields: seq<Field>)
    | Union(tagKey: bytes, variants: seq<Variant>)
    | Map(value: Scalar)

  datatype Shape = Single | Fixed(size: nat) | Dynamic

  /**
   A field's entry in the table; `flagged` ones, the optional and nullable ones, have a presence flag. The
   entry of a fixed array of maps is that of a single map.
   */
  datatype Field = Field(key: bytes, item: Item, shape: Shape, nullable: bool, flagged: bool, index: int)

  function VariantNames(variants: seq<Variant>): (ns: seq<bytes>)
    ensures |ns| == |variants| && forall i :: 0 <= i < |ns| ==> ns[i] == variants[i].name
  {
    seq(|variants|, i requires 0 <= i < |variants| => variants[i].name)
  }

  // ----- Storage -----

  /** A string may be missing; `Unwritten` is memory that came from the allocator and was not written since. */
  datatype Datum =
    | IntV(i: int)
    | FloatV(text: bytes)
    | StrV(s: Option<bytes>)
    | ArrV(elems: seq<Datum>)
    | StructV(slots: seq<Slot>)
    | UnionV(tag: int, variant: seq<Slot>)
    | MapV(entries: seq<(bytes, Datum)>)
    | Unwritten
  datatype Slot = Slot(has: bool, val: Datum)

  const ZERO_TEXT: bytes := [48]

  function ClearedScalar(ty: Scalar): Datum {
    match ty
    case Float => FloatV(ZERO_TEXT)
    case Text => StrV(None)
    case _ => IntV(0)
  }

  /** All bytes zero. */
  function ClearedItem(it: Item): Datum
    decreases it
  {
    match it
    case Plain(scalar) => ClearedScalar(scalar)
    case Nested(fields) => StructV(ClearedSlots(fields))
    case Union(_, variants) => UnionV(0, if variants == [] then [] else ClearedVariant(variants[0]))
    case Map(_) => MapV([])
  }

  function ClearedVariant(v: Variant): seq<Slot>
    decreases v
  {
    ClearedSlots(v.fields)
  }

  function ClearedField(f: Field): Slot
    decreases f
  {
    Slot(false,
         match f.shape
         case Single => ClearedItem(f.item)
         case Fixed(size) => ArrV(Repeat(size, ClearedItem(f.item)))
         case Dynamic => ArrV([]))
  }

  function ClearedSlots(fields: seq<Field>): (slots: seq<Slot>)
    ensures |slots| == |fields| && forall i :: 0 <= i < |fields| ==> slots[i] == ClearedField(fields[i])
    decreases fields
  {
    if fields == [] then [] else [ClearedField(fields[0])] + ClearedSlots(fields[1..])
  }

  /** The storage an item needs; scalars are not told apart. */
  predicate ShapedItem(it: Item, v: Datum)
    decreases it
  {
    match it
    case Plain(_) => true
    case Nested(fields) => v.StructV? && ShapedSlots(fields, v.slots)
    case Union(_, variants) =>
      v.UnionV? && (0 <= v.tag < |variants| ==> ShapedVariant(variants[v.tag], v.variant))
    case Map(_) => v.MapV?
  }

  predicate ShapedVariant(w: Variant, slots: seq<Slot>)
    decreases w
  {
    ShapedSlots(w.fields, slots)
  }

  predicate ShapedField(f: Field, v: Datum)
    decreases f
  {
    match f.shape
    case Single => ShapedItem(f.item, v)
    case Fixed(size) => v.ArrV? && |v.elems| == size && forall e :: e in v.elems ==> ShapedItem(f.item, e)
    case Dynamic => v.ArrV?
  }

  predicate ShapedSlots(fields: seq<Field>, slots: seq<Slot>)
    decreases fields
  {
    |slots| == |fields| && forall i :: 0 <= i < |fields| ==> ShapedField(fields[i], slots[i].val)
  }

  lemma {:induction false} ClearedItemIsShaped(it: Item)
    ensures ShapedItem(it, ClearedItem(it))
    decreases it
  {
    match it
    case Nested(fields) => ClearedIsShaped(fields);
    case Union(_, variants) => if variants != [] { ClearedVariantIsShaped(variants[0]); }
    case _ =>
  }

  lemma {:induction false} ClearedVariantIsShaped(v: Variant)
    ensures ShapedVariant(v, ClearedVariant(v)) && ShapedSlots(v.fields, ClearedSlots(v.fields))
    decreases v
  {
    ClearedIsShaped(v.fields);
  }

  lemma {:induction false} ClearedFieldIsShaped(f: Field)
    ensures ShapedField(f, ClearedField(f).val)
    decreases f
  {
    ClearedItemIsShaped(f.item);
  }

  lemma {:induction false} ClearedIsShaped(fields: seq<Field>)
    ensures ShapedSlots(fields, ClearedSlots(fields))
    decreases fields
  {
    forall i | 0 <= i < |fields| ensures ShapedField(fields[i], ClearedSlots(fields)[i].val) {
      ClearedFieldIsShaped(fields[i]);
    }
  }

  // ----- Selection -----

  /** A mask over a struct's fields, or none, and masks for the structs nested in some of them. */
  datatype Mask = Mask(words: Option<seq<u64>>, nested: seq<NestedMask>)
  datatype NestedMask = NestedMask(index: int, mask: Mask)

  const NO_MASK := Mask(None, [])

  function Pow2(n: nat): (p: nat)
    ensures p > 0
  {
    if n == 0 then 1 else 2 * Pow2(n - 1)
  }

  /** No mask selects every field; a mask never selects a length field, whose index is negative. */
  predicate Selected(mask: Mask, index: int) {
    match mask.words
    case None => true
    case Some(words) => index >= 0 && index / 64 < |words| && words[index / 64] / Pow2(index % 64) % 2 != 0
  }

  /** The first mask for the field, or none. */
  function FindNested(nested: seq<NestedMask>, index: int): Mask {
    if nested == [] then NO_MASK
    else if nested[0].index == index then nested[0].mask
    else FindNested(nested[1..], index)
  }

  // ----- Lookup -----

  function FindField(fields: seq<Field>, key: bytes): (i: int)
    ensures -1 <= i < |fields| && (i >= 0 ==> fields[i].key == key)
    ensures i == -1 ==> forall j :: 0 <= j < |fields| ==> fields[j].key != key
    ensures i >= 0 ==> forall j :: 0 <= j < i ==> fields[j].key != key
  {
    if fields == [] then -1
    else if fields[0].key == key then 0
    else
      var j := FindField(fields[1..], key);
      if j == -1 then -1 else j + 1
  }

  function NameIndex(names: seq<bytes>, n: bytes): (i: int)
    ensures -1 <= i < |names| && (i >= 0 ==> names[i] == n)
  {
    if names == [] then -1
    else if names[0] == n then 0
    else
      var j := NameIndex(names[1..], n);
      if j == -1 then -1 else j + 1
  }

  lemma {:induction false} NameIsFound(names: seq<bytes>, n: bytes)
    ensures n in names <==> NameIndex(names, n) >= 0
  {
    if names != [] { NameIsFound(names[1..], n); }
  }
}
