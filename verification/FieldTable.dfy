/** The open-addressed table from a struct's and a field's name to the field's description. */
module FieldTable {
  import opened Bytes
  import opened JsonTag

  /** What the generated table describes: a struct itself, under the empty name, or one of its fields. */
  datatype Name = Name(owner: bytes, field: bytes)

  datatype FieldDecl = FieldDecl(key: bytes, dynamic: bool)
  datatype StructDecl = StructDecl(name: bytes, fields: seq<FieldDecl>)

  /** "_len", the suffix of the length that goes with a dynamic array. */
  const LEN: bytes := [95, 108, 101, 110]

  // ----- What is put in the table -----

  function FieldNames(owner: bytes, fields: seq<FieldDecl>): seq<Name> {
    if fields == [] then []
    else
      [Name(owner, fields[0].key)] + (if fields[0].dynamic then [Name(owner, fields[0].key + LEN)] else [])
      + FieldNames(owner, fields[1..])
  }

  /** In the order of insertion. */
  function AllNames(structs: seq<StructDecl>): seq<Name> {
    if structs == [] then []
    else [Name(structs[0].name, [])] + FieldNames(structs[0].name, structs[0].fields) + AllNames(structs[1..])
  }

  /** The count the table's size is computed from leaves the structs themselves out. */
  function CountFields(fields: seq<FieldDecl>): nat {
    if fields == [] then 0 else (if fields[0].dynamic then 2 else 1) + CountFields(fields[1..])
  }

  function TotalFields(structs: seq<StructDecl>): nat {
    if structs == [] then 0 else CountFields(structs[0].fields) + TotalFields(structs[1..])
  }

  function TableSize(structs: seq<StructDecl>): (n: nat)
    ensures n > 0
  {
    TotalFields(structs) * 2 + 1
  }

  lemma {:induction false} NamesCounted(structs: seq<StructDecl>)
    ensures |AllNames(structs)| == |structs| + TotalFields(structs)
  {
    if structs != [] {
      FieldNamesCounted(structs[0].name, structs[0].fields);
      NamesCounted(structs[1..]);
    }
  }

  lemma {:induction false} FieldNamesCounted(owner: bytes, fields: seq<FieldDecl>)
    ensures |FieldNames(owner, fields)| == CountFields(fields)
  {
    if fields != [] { FieldNamesCounted(owner, fields[1..]); }
  }

  // ----- Hashing -----

  const SEED := 0xbc9f1d34
  const HASH_SIGN: bytes := [35]

  /** `h` hashes octets from a seed; nothing else is assumed of it. */
  function Hash2(h: (bytes, nat) -> nat, n: Name): nat {
    h(n.field, h(HASH_SIGN, h(n.owner, SEED)))
  }

  /** The first index at or after `i` where the name is, or the length. */
  function FirstFrom(names: seq<Name>, n: Name, i: nat): (k: nat)
    requires i <= |names|
    ensures i <= k <= |names| && (k < |names| ==> names[k] == n)
    ensures forall j :: i <= j < k ==> names[j] != n
    decreases |names| - i
  {
    if i == |names| || names[i] == n then i else FirstFrom(names, n, i + 1)
  }

  // ----- Probing -----

  /** The slot `e` steps from `home`, around the end. */
  function At(home: nat, e: nat, size: nat): (p: nat)
    requires home < size && e < size
    ensures p < size
  {
    if home + e < size then home + e else home + e - size
  }

  /** How far slot `p` is from `home`. */
  function Steps(home: nat, p: nat, size: nat): (e: nat)
    requires home < size && p < size
    ensures e < size && At(home, e, size) == p
  {
    if p >= home then p - home else p + size - home
  }

  /**
   The table after `n` insertions: item `i` is `away[i]` steps from its home, with earlier items
   on all the steps before.
   */
  ghost predicate Filled(slots: seq<int>, homes: seq<nat>, away: seq<nat>, n: nat) {
    && n == |away| <= |homes| && |slots| > 0
    && (forall i :: 0 <= i < |homes| ==> homes[i] < |slots|)
    && (forall p :: 0 <= p < |slots| ==> -1 <= slots[p] < n)
    && (forall i :: 0 <= i < n ==> away[i] < |slots| && slots[At(homes[i], away[i], |slots|)] == i)
    && (forall p :: 0 <= p < |slots| && slots[p] >= 0 ==> p == At(homes[slots[p]], away[slots[p]], |slots|))
    && (forall i, e :: 0 <= i < n && 0 <= e < away[i] ==> 0 <= slots[At(homes[i], e, |slots|)] < i)
  }

  function Places(homes: seq<nat>, away: seq<nat>, size: nat): (places: seq<nat>)
    requires |away| <= |homes| && forall i :: 0 <= i < |away| ==> homes[i] < size && away[i] < size
    ensures |places| == |away| && forall i :: 0 <= i < |away| ==> places[i] == At(homes[i], away[i], size)
  {
    seq(|away|, i requires 0 <= i < |away| => At(homes[i], away[i], size))
  }

  /** As many slots are taken as items were put in. */
  lemma {:induction false} SlotsTaken(slots: seq<int>, homes: seq<nat>, away: seq<nat>, n: nat)
    requires Filled(slots, homes, away, n)
    ensures n <= |slots|
    ensures n == |slots| <==> forall p :: 0 <= p < |slots| ==> slots[p] != -1
  {
    hide At;
    var places := Places(homes, away, |slots|);
    forall i, k | 0 <= i < k < n ensures places[i] != places[k] {
      assert slots[places[i]] == i && slots[places[k]] == k;
    }
    DistinctCount(places);
    UpToHas(|slots|);
    forall p | p in SetOf(places) ensures p in UpTo(|slots|) && slots[p] != -1 {
      var i :| 0 <= i < n && places[i] == p;
    }
    SubsetCount(SetOf(places), UpTo(|slots|));
    if n == |slots| {
      forall p | 0 <= p < |slots| ensures slots[p] != -1 { assert p in UpTo(|slots|); }
    } else if forall p :: 0 <= p < |slots| ==> slots[p] != -1 {
      forall p | p in UpTo(|slots|) ensures p in SetOf(places) {
        assert slots[p] != -1 && places[slots[p]] == p;
      }
      SubsetCount(UpTo(|slots|), SetOf(places));
    }
  }

  function UpTo(n: nat): set<nat> {
    if n == 0 then {} else UpTo(n - 1) + {n - 1}
  }

  lemma {:induction false} UpToHas(n: nat)
    ensures |UpTo(n)| == n && forall p: nat :: p in UpTo(n) <==> p < n
  {
    if n > 0 { UpToHas(n - 1); }
  }

  // ----- Building the table -----

  /** Puts the next item into the first free slot from its home on. Without one the loop would not end. */
  method GenHashArr(home: nat, slots: array<int>, count: nat, ghost homes: seq<nat>, ghost away: seq<nat>)
    returns (ghost e: nat)
    requires Filled(slots[..], homes, away, count) && count < |homes| && home == homes[count] && count < slots.Length
    modifies slots
    ensures Filled(slots[..], homes, away + [e], count + 1)
  {
    hide Filled, At;
    ghost var before := slots[..];
    HomesFit(before, homes, away, count);
    SlotsTaken(before, homes, away, count);
    ghost var free :| 0 <= free < |before| && before[free] == -1;
    ghost var bound := Steps(home, free, |before|);
    var i := home;
    e := 0;
    AtHome(home, |before|);
    while slots[i] != -1
      invariant e <= bound < |before| && 0 <= i < slots.Length && i == At(home, e, slots.Length) && slots[..] == before
      invariant forall d :: 0 <= d < e ==> before[At(home, d, |before|)] != -1
      decreases bound - e
    {
      assert before[i] == slots[i];
      NextStep(home, e, |before|);
      i := i + 1;
      if i >= slots.Length { i := 0; }
      e := e + 1;
    }
    slots[i] := count;
    assert slots[..] == before[i := count];
    OneMore(before, homes, away, count, e);
  }

  lemma {:induction false} HomesFit(slots: seq<int>, homes: seq<nat>, away: seq<nat>, n: nat)
    requires Filled(slots, homes, away, n)
    ensures forall i :: 0 <= i < |homes| ==> homes[i] < |slots|
  {
  }

  lemma {:induction false} AtHome(home: nat, size: nat)
    requires home < size
    ensures At(home, 0, size) == home
  {
  }

  lemma {:induction false} NextStep(home: nat, e: nat, size: nat)
    requires home < size && e < size
    ensures e + 1 < size ==> At(home, e + 1, size) == if At(home, e, size) + 1 >= size then 0 else At(home, e, size) + 1
  {
  }

  lemma {:induction false} OneMore(slots: seq<int>, homes: seq<nat>, away: seq<nat>, n: nat, e: nat)
    requires Filled(slots, homes, away, n) && n < |homes| && e < |slots|
    requires slots[At(homes[n], e, |slots|)] == -1
    requires forall d :: 0 <= d < e ==> slots[At(homes[n], d, |slots|)] != -1
    ensures Filled(slots[At(homes[n], e, |slots|) := n], homes, away + [e], n + 1)
  {
    hide At;
    var p := At(homes[n], e, |slots|);
    var slots' := slots[p := n];
    var away' := away + [e];
    forall i | 0 <= i < n + 1 ensures away'[i] < |slots| && slots'[At(homes[i], away'[i], |slots|)] == i {
      if i < n { assert slots[At(homes[i], away[i], |slots|)] == i; }
    }
    forall i, d | 0 <= i < n + 1 && 0 <= d < away'[i] ensures 0 <= slots'[At(homes[i], d, |slots|)] < i {
      if i < n { assert slots[At(homes[i], d, |slots|)] >= 0; }
    }
  }

  /** When every insertion finds a slot, and when one is left over for the lookups to stop at. */
  lemma {:induction false} RoomFor(structs: seq<StructDecl>)
    ensures |AllNames(structs)| <= TableSize(structs) <==> |structs| <= TotalFields(structs) + 1
    ensures |AllNames(structs)| < TableSize(structs) <==> |structs| <= TotalFields(structs)
  {
    NamesCounted(structs);
  }

  /** The generator's table for its own list of names. */
  ghost predicate IsTable(h: (bytes, nat) -> nat, names: seq<Name>, slots: seq<int>, away: seq<nat>) {
    && |slots| > 0 && Filled(slots, Homes(h, names, |slots|), away, |names|)
  }

  function Homes(h: (bytes, nat) -> nat, names: seq<Name>, size: nat): (homes: seq<nat>)
    requires size > 0
    ensures |homes| == |names| && forall i :: 0 <= i < |homes| ==> homes[i] == Hash2(h, names[i]) % size
  {
    seq(|names|, i requires 0 <= i < |names| => Hash2(h, names[i]) % size)
  }

  method GenCodeOffsetMap(h: (bytes, nat) -> nat, structs: seq<StructDecl>)
    returns (slots: array<int>, ghost away: seq<nat>)
    requires |structs| <= TotalFields(structs) + 1
    ensures fresh(slots) && slots.Length == TableSize(structs)
    ensures IsTable(h, AllNames(structs), slots[..], away)
  {
    hide Filled, Hash2;
    RoomFor(structs);
    var names := AllNames(structs);
    var size := TableSize(structs);
    slots := new int[size](_ => -1);
    away := [];
    ghost var homes := Homes(h, names, size);
    EmptyTable(slots[..], homes);
    for i := 0 to |names|
      invariant Filled(slots[..], homes, away, i)
    {
      ghost var e := GenHashArr(Hash2(h, names[i]) % size, slots, i, homes, away);
      away := away + [e];
    }
  }

  lemma {:induction false} EmptyTable(slots: seq<int>, homes: seq<nat>)
    requires |slots| > 0 && (forall p :: 0 <= p < |slots| ==> slots[p] == -1) && forall i :: 0 <= i < |homes| ==> homes[i] < |slots|
    ensures Filled(slots, homes, [], 0)
  {
  }

  // ----- Looking a name up -----

  /** The linear search: the first index of the name, or -1. */
  function Linear(names: seq<Name>, n: Name): int {
    if FirstFrom(names, n, 0) == |names| then -1 else FirstFrom(names, n, 0)
  }

  /** The name's items, if there are any, start their probe at `home`. */
  ghost predicate StartsAt(names: seq<Name>, n: Name, homes: seq<nat>, home: nat) {
    |homes| == |names| && forall i :: 0 <= i < |names| && names[i] == n ==> homes[i] == home
  }

  /**
   What slot `e` of the probe tells: the search is over, with the right answer if it began at the right
   home, or the end is still ahead.
   */
  ghost predicate Tells(slots: seq<int>, names: seq<Name>, n: Name, right: bool, home: nat, bound: nat, e: nat)
    requires home < |slots| && e < |slots|
  {
    var id := slots[At(home, e, |slots|)];
    && id < |names|
    && (id < 0 && right ==> Linear(names, n) == -1)
    && (id >= 0 && names[id] == n && right ==> id == Linear(names, n))
    && (id >= 0 && names[id] != n ==> e < bound)
  }

  /** From the right home the probe ends at the first item of that name; else, or without one, at a free slot at the latest. */
  lemma {:induction false} ProbeEnds(slots: seq<int>, names: seq<Name>, n: Name, home: nat, homes: seq<nat>, away: seq<nat>)
    returns (bound: nat)
    requires Filled(slots, homes, away, |names|) && |homes| == |names| && home < |slots|
    requires |names| < |slots| || (n in names && StartsAt(names, n, homes, home))
    ensures bound < |slots| && forall e :: 0 <= e <= bound ==> Tells(slots, names, n, StartsAt(names, n, homes, home), home, bound, e)
  {
    hide At;
    var m := FirstFrom(names, n, 0);
    var right := StartsAt(names, n, homes, home);
    if m < |names| && right {
      bound := away[m];
      forall e | 0 <= e <= bound ensures Tells(slots, names, n, right, home, bound, e) {
        assert e < bound ==> 0 <= slots[At(homes[m], e, |slots|)] < m;
      }
    } else {
      SlotsTaken(slots, homes, away, |names|);
      var free :| 0 <= free < |slots| && slots[free] == -1;
      bound := Steps(home, free, |slots|);
    }
  }

  /** From `home` on, to the name or to a free slot; there must be one or the other. */
  method Probe(slots: array<int>, names: seq<Name>, n: Name, home: nat, ghost homes: seq<nat>, ghost away: seq<nat>)
    returns (id: int)
    requires Filled(slots[..], homes, away, |names|) && |homes| == |names| && home < slots.Length
    requires |names| < slots.Length || (n in names && StartsAt(names, n, homes, home))
    ensures id == -1 || (0 <= id < |names| && names[id] == n)
    ensures StartsAt(names, n, homes, home) ==> id == Linear(names, n)
  {
    hide Filled, At, Linear, StartsAt;
    ghost var right := StartsAt(names, n, homes, home);
    ghost var bound := ProbeEnds(slots[..], names, n, home, homes, away);
    ghost var e := 0;
    var p := home;
    AtHome(home, slots.Length);
    assert Tells(slots[..], names, n, right, home, bound, e);
    id := slots[p];
    if id < 0 { return -1; }
    while true
      invariant e <= bound < slots.Length && 0 <= p < slots.Length && p == At(home, e, slots.Length)
      invariant id == slots[p] && id >= 0
      decreases bound - e
    {
      assert Tells(slots[..], names, n, right, home, bound, e);
      if names[id] == n { return; }
      NextStep(home, e, slots.Length);
      p := p + 1;
      if p >= slots.Length { p := 0; }
      e := e + 1;
      assert Tells(slots[..], names, n, right, home, bound, e);
      id := slots[p];
      if id < 0 { return -1; }
    }
  }

  /** A field of a struct by name: the same answer as the linear search. */
  method ItemFind(h: (bytes, nat) -> nat, names: seq<Name>, slots: array<int>, owner: bytes, field: bytes,
        ghost away: seq<nat>)
    returns (id: int)
    requires IsTable(h, names, slots[..], away)
    requires Name(owner, field) in names || |names| < slots.Length
    ensures id == Linear(names, Name(owner, field))
  {
    hide Filled, Hash2, Linear;
    ghost var homes := Homes(h, names, slots.Length);
    id := Probe(slots, names, Name(owner, field), Hash2(h, Name(owner, field)) % slots.Length, homes, away);
  }

  /** The hash of the struct's name is computed once; the key's text is hashed by its length but compared as a C string. */
  method ItemFindPrehashed(h: (bytes, nat) -> nat, names: seq<Name>, slots: array<int>, ownerHash: nat, owner: bytes,
        text: bytes,
                           ghost away: seq<nat>)
    returns (id: int)
    requires IsTable(h, names, slots[..], away) && ownerHash == h(owner, SEED)
    requires |names| < slots.Length || (CString(text) == text && Name(owner, text) in names)
    ensures CString(text) == text ==> id == Linear(names, Name(owner, text))
    ensures id == -1 || (0 <= id < |names| && names[id] == Name(owner, CString(text)))
  {
    hide Filled, Linear;
    ghost var homes := Homes(h, names, slots.Length);
    id := Probe(slots, names, Name(owner, CString(text)), h(text, h(HASH_SIGN, ownerHash)) % slots.Length, homes, away);
  }

  /** The linear search finds the first item of that name, and -1 exactly when there is none. */
  lemma {:induction false} LinearFindsFirst(names: seq<Name>, n: Name)
    ensures Linear(names, n) == -1 <==> n !in names
    ensures n in names ==> 0 <= Linear(names, n) < |names| && names[Linear(names, n)] == n
    ensures forall j :: 0 <= j < Linear(names, n) ==> names[j] != n
  {
    var m := FirstFrom(names, n, 0);
    if n in names {
      var j :| 0 <= j < |names| && names[j] == n;
      assert m <= j;
    }
  }

  /** With as many structs as one more than the fields, the table is full and a lookup has nowhere to stop. */
  lemma {:induction false} OneEmptyStructFillsTheTable(h: (bytes, nat) -> nat, name: bytes, slots: seq<int>, away: seq<nat>)
    requires |slots| == TableSize([StructDecl(name, [])]) && IsTable(h, AllNames([StructDecl(name, [])]), slots, away)
    ensures forall p :: 0 <= p < |slots| ==> slots[p] != -1
  {
    RoomFor([StructDecl(name, [])]);
    SlotsTaken(slots, Homes(h, AllNames([StructDecl(name, [])]), |slots|), away, |AllNames([StructDecl(name, [])])|);
  }
}
