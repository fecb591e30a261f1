/**
 Clear, copy and move of generated objects, over a heap on which any allocation may fail. A
 block is named by the allocation that made it, so no name is ever used twice.
 */
module Ownership {
  import opened Bytes
  import Sstr

  // ----- The heap -----

  /** The live blocks and the freed ones. */
  datatype Books = Books(live: multiset<nat>, freed: multiset<nat>)

  class Heap {
    const fails: nat -> bool
    var calls: nat
    var next: nat
    ghost var books: Books

    /** Every block ever made is live or was freed, and never twice. */
    ghost predicate Valid()
      reads this
    {
      EachOnce(books, next)
    }

    constructor (fails: nat -> bool)
      ensures Valid() && this.fails == fails && books == Books(multiset{}, multiset{})
    {
      this.fails := fails;
      calls, next, books := 0, 0, Books(multiset{}, multiset{});
    }

    method Malloc() returns (b: Option<nat>)
      requires Valid()
      modifies this
      ensures Valid() && calls == old(calls) + 1 && old(next) <= next
      ensures b == if fails(old(calls)) then None else Some(old(next))
      ensures Trade(old(books), books, multiset{}, BlockOf(b))
    {
      calls := calls + 1;
      if fails(calls - 1) { return None; }
      b := Some(next);
      books := Books(books.live + multiset{next}, books.freed);
      next := next + 1;
      assert books.live + books.freed == old(books.live + books.freed) + multiset{old(next)};
    }

    /** Freeing what is not live would be a double free. */
    method Free(b: nat)
      requires Valid() && Has(books, BlockOf(Some(b)))
      modifies this
      ensures Valid() && calls == old(calls) && next == old(next)
      ensures Trade(old(books), books, BlockOf(Some(b)), multiset{})
    {
      books := Books(books.live - multiset{b}, books.freed + multiset{b});
      assert books.live + books.freed == old(books.live + books.freed);
    }
  }

  ghost predicate EachOnce(s: Books, next: nat) {
    forall b: nat :: (s.live + s.freed)[b] == if b < next then 1 else 0
  }

  ghost predicate Has(s: Books, blocks: multiset<nat>) {
    blocks <= s.live
  }

  /** From `s` to `t`, the blocks `lost` were freed and the live ones grew by `gained`. */
  ghost predicate Trade(s: Books, t: Books, lost: multiset<nat>, gained: multiset<nat>) {
    lost <= s.live && t.live == s.live - lost + gained && s.freed + lost <= t.freed
  }

  lemma {:induction false} NoTrade(s: Books, none: multiset<nat>)
    requires none == multiset{}
    ensures Trade(s, s, none, none) && Has(s, none)
  {
  }

  lemma {:induction false} FreeBoth(s: Books, t: Books, a: multiset<nat>, b: multiset<nat>)
    requires Has(s, a + b) && Trade(s, t, a, multiset{})
    ensures Has(s, a) && Has(t, b)
    ensures forall u :: Trade(t, u, b, multiset{}) ==> Trade(s, u, a + b, multiset{})
  {
  }

  lemma {:induction false} Part(s: Books, a: multiset<nat>, b: multiset<nat>)
    requires Has(s, a + b)
    ensures Has(s, a) && Has(s, b)
  {
  }

  lemma {:induction false} TakeBoth(s: Books, t: Books, u: Books, a: multiset<nat>, b: multiset<nat>)
    requires Trade(s, t, multiset{}, a) && Trade(t, u, multiset{}, b)
    ensures Trade(s, u, multiset{}, a + b) && Trade(s, u, multiset{}, b + a)
  {
  }

  lemma {:induction false} FreeThenTake(s: Books, t: Books, u: Books, a: multiset<nat>, b: multiset<nat>)
    requires Trade(s, t, a, multiset{}) && Trade(t, u, multiset{}, b)
    ensures Trade(s, u, a, b) && Has(u, b)
  {
  }

  lemma {:induction false} TakeThenFree(s: Books, t: Books, u: Books, a: multiset<nat>, b: multiset<nat>)
    requires Trade(s, t, a, b) && Trade(t, u, b, multiset{})
    ensures Trade(s, u, a, multiset{})
  {
  }

  // ----- Objects in memory -----

  /** What a schema type becomes in C; a map is a list of entries. */
  datatype Layout =
    | Number
    | Text
    | Record(fields: seq<Member>)
    | Union(variants: seq<Variant>)
    | Row(elem: Layout, size: nat)
    | List(elem: Layout)
    | Entry(value: Layout)

  /** `flagged` members, the optional and nullable ones, have a presence flag. */
  datatype Member = Member(layout: Layout, flagged: bool)

  datatype Variant = Variant(fields: seq<Member>)

  /** A string's own block, its heap buffer if it has one, and its content. */
  datatype Chars = Chars(head: nat, buffer: Option<nat>, s: bytes)

  /** The storage of an object. A union holds the parts of the struct its tag selects. */
  datatype Mem =
    | Num(v: int)
    | Str(chars: Option<Chars>)
    | Rec(has: seq<bool>, parts: seq<Mem>)
    | Uni(tag: int, has: seq<bool>, parts: seq<Mem>)
    | Arr(parts: seq<Mem>)
    | Ptr(block: Option<nat>, parts: seq<Mem>)
    | Pair(key: Mem, val: Mem)

  predicate Fits(l: Layout, m: Mem)
    decreases m
  {
    match l
    case Number => m.Num?
    case Text => m.Str?
    case Record(fields) => m.Rec? && FitsAll(fields, m.has, m.parts)
    case Union(variants) =>
      m.Uni? && if 0 <= m.tag < |variants| then FitsAll(variants[m.tag].fields, m.has, m.parts) else m.has == [] && m.parts == []
    case Row(elem, size) => m.Arr? && |m.parts| == size && forall p :: p in m.parts ==> Fits(elem, p)
    case List(elem) => m.Ptr? && (m.block.None? ==> m.parts == []) && forall p :: p in m.parts ==> Fits(elem, p)
    case Entry(value) => m.Pair? && Fits(Text, m.key) && Fits(value, m.val)
  }

  predicate FitsAll(fields: seq<Member>, has: seq<bool>, parts: seq<Mem>)
    decreases parts
  {
    && |has| == |parts| == |fields|
    && (forall i :: 0 <= i < |fields| ==> Fits(fields[i].layout, parts[i]))
    && (forall i :: 0 <= i < |fields| && has[i] ==> fields[i].flagged)
  }

  function BlockOf(b: Option<nat>): multiset<nat> {
    if b.Some? then multiset{b.value} else multiset{}
  }

  /** The blocks an object owns, each as often as it refers to it. */
  function Owned(m: Mem): multiset<nat>
    decreases m
  {
    match m
    case Num(_) => multiset{}
    case Str(None) => multiset{}
    case Str(Some(c)) => BlockOf(c.buffer) + BlockOf(Some(c.head))
    case Rec(_, parts) => OwnedAll(parts)
    case Uni(_, _, parts) => OwnedAll(parts)
    case Arr(parts) => OwnedAll(parts)
    case Ptr(block, parts) => OwnedAll(parts) + BlockOf(block)
    case Pair(key, val) => Owned(key) + Owned(val)
  }

  function OwnedAll(parts: seq<Mem>): multiset<nat>
    decreases parts
  {
    if parts == [] then multiset{} else Owned(parts[0]) + OwnedAll(parts[1..])
  }

  /** An object whose bytes are all zero. */
  function Blank(l: Layout): (m: Mem)
    decreases l
  {
    match l
    case Number => Num(0)
    case Text => Str(None)
    case Record(fields) => Rec(Repeat(|fields|, false), BlankAll(fields))
    case Union(variants) => BlankUnion(variants, 0)
    case Row(elem, size) => Arr(Repeat(size, Blank(elem)))
    case List(_) => Ptr(None, [])
    case Entry(value) => Pair(Str(None), Blank(value))
  }

  function BlankUnion(variants: seq<Variant>, tag: int): Mem
    decreases variants
  {
    if 0 <= tag < |variants| then Uni(tag, Repeat(|variants[tag].fields|, false), BlankAll(variants[tag].fields)) else Uni(tag, [], [])
  }

  function BlankAll(fields: seq<Member>): (ms: seq<Mem>)
    ensures |ms| == |fields| && forall i :: 0 <= i < |ms| ==> ms[i] == BlankPart(fields[i])
    decreases fields
  {
    if fields == [] then [] else [BlankPart(fields[0])] + BlankAll(fields[1..])
  }

  function BlankPart(f: Member): Mem
    decreases f
  {
    Blank(f.layout)
  }

  /** Equal content, whatever blocks hold it; what an unset flag hides does not matter. */
  predicate Same(l: Layout, a: Mem, b: Mem)
    requires Fits(l, a) && Fits(l, b)
    decreases b, 0
  {
    match l
    case Number => a == b
    case Text => a.chars.Some? == b.chars.Some? && (a.chars.Some? ==> a.chars.value.s == b.chars.value.s)
    case Record(fields) => SameFields(fields, a.has, a.parts, b.has, b.parts)
    case Union(variants) =>
      a.tag == b.tag && (0 <= a.tag < |variants| ==> SameFields(variants[a.tag].fields, a.has, a.parts, b.has, b.parts))
    case Row(elem, _) => SameParts(elem, a.parts, b.parts)
    case List(elem) => SameParts(elem, a.parts, b.parts)
    case Entry(value) => Same(Text, a.key, b.key) && Same(value, a.val, b.val)
  }

  predicate SameParts(elem: Layout, a: seq<Mem>, b: seq<Mem>)
    requires (forall p :: p in a ==> Fits(elem, p)) && (forall p :: p in b ==> Fits(elem, p))
    decreases b
  {
    |a| == |b| && forall i :: 0 <= i < |b| ==> Same(elem, a[i], b[i])
  }

  predicate SameFields(fields: seq<Member>, ahas: seq<bool>, a: seq<Mem>, bhas: seq<bool>, b: seq<Mem>)
    requires FitsAll(fields, ahas, a) && FitsAll(fields, bhas, b)
    decreases b
  {
    forall i :: 0 <= i < |fields| ==> SameField(fields[i], ahas[i], a[i], bhas[i], b[i])
  }

  predicate SameField(f: Member, ahas: bool, a: Mem, bhas: bool, b: Mem)
    requires Fits(f.layout, a) && Fits(f.layout, b)
    decreases b, 1
  {
    ahas == bhas && (!f.flagged || bhas ==> Same(f.layout, a, b))
  }

  // ----- What a copy allocates, in order -----

  /** An array's allocation is checked; a string's is written to at once. */
  datatype Step = Checked | Unchecked

  function Plan(l: Layout, m: Mem): seq<Step>
    requires Fits(l, m)
    decreases m, 0
  {
    match l
    case Number => []
    case Text =>
      if m.chars.None? then []
      else if |m.chars.value.s| <= Sstr.SHORT_STR_CAPACITY then [Unchecked]
      else [Unchecked, Unchecked]
    case Record(fields) => PlanFields(fields, m.has, m.parts)
    case Union(variants) => if 0 <= m.tag < |variants| then PlanFields(variants[m.tag].fields, m.has, m.parts) else []
    case Row(elem, _) => PlanParts(elem, m.parts)
    case List(elem) => if m.parts == [] then [] else [Checked] + PlanParts(elem, m.parts)
    case Entry(value) => Plan(Text, m.key) + Plan(value, m.val)
  }

  function PlanParts(elem: Layout, parts: seq<Mem>): seq<Step>
    requires forall p :: p in parts ==> Fits(elem, p)
    decreases parts
  {
    if parts == [] then [] else Plan(elem, parts[0]) + PlanParts(elem, parts[1..])
  }

  function PlanFields(fields: seq<Member>, has: seq<bool>, parts: seq<Mem>): seq<Step>
    requires FitsAll(fields, has, parts)
    decreases parts
  {
    if parts == [] then []
    else PlanField(fields[0], has[0], parts[0]) + PlanFields(fields[1..], has[1..], parts[1..])
  }

  function PlanField(f: Member, has: bool, m: Mem): seq<Step>
    requires Fits(f.layout, m)
    decreases m, 1
  {
    if f.flagged && !has then [] else Plan(f.layout, m)
  }

  /** `Crashed` is undefined behaviour in C: a failed string allocation is written through. */
  datatype Outcome = Copied | Failed | Crashed

  /** The first failing allocation of a plan decides how it ends. */
  function Judge(fails: nat -> bool, k: nat, plan: seq<Step>): Outcome
    decreases |plan|
  {
    if plan == [] then Copied
    else if !fails(k) then Judge(fails, k + 1, plan[1..])
    else if plan[0].Checked? then Failed
    else Crashed
  }

  /** The first of these allocations to fail is of kind `step`. */
  ghost predicate FirstFailureIs(fails: nat -> bool, k: nat, plan: seq<Step>, step: Step) {
    exists n :: k <= n < k + |plan| && fails(n) && plan[n - k] == step && forall j :: k <= j < n ==> !fails(j)
  }

  ghost predicate NothingFails(fails: nat -> bool, k: nat, plan: seq<Step>) {
    forall n :: k <= n < k + |plan| ==> !fails(n)
  }

  /** How a plan ends, told without recursion. */
  lemma {:induction false} FirstFailureDecides(fails: nat -> bool, k: nat, plan: seq<Step>)
    ensures Judge(fails, k, plan) == Copied <==> NothingFails(fails, k, plan)
    ensures Judge(fails, k, plan) == Failed <==> FirstFailureIs(fails, k, plan, Checked)
    ensures Judge(fails, k, plan) == Crashed <==> FirstFailureIs(fails, k, plan, Unchecked)
    decreases |plan|
  {
    if plan == [] {
    } else if fails(k) {
      assert plan[k - k] == plan[0];
    } else {
      FirstFailureDecides(fails, k + 1, plan[1..]);
      FailureShifts(fails, k, plan, Checked);
      FailureShifts(fails, k, plan, Unchecked);
    }
  }

  lemma {:induction false} FailureShifts(fails: nat -> bool, k: nat, plan: seq<Step>, step: Step)
    requires plan != [] && !fails(k)
    ensures FirstFailureIs(fails, k, plan, step) <==> FirstFailureIs(fails, k + 1, plan[1..], step)
  {
    forall n | k + 1 <= n < k + |plan| && fails(n) ensures plan[n - k] == plan[1..][n - (k + 1)] {
    }
  }

  lemma {:induction false} JudgeOfSum(fails: nat -> bool, k: nat, a: seq<Step>, b: seq<Step>)
    ensures Judge(fails, k, a + b)
            == if Judge(fails, k, a) == Copied then Judge(fails, k + |a|, b) else Judge(fails, k, a)
    decreases |a|
  {
    if a == [] {
      assert a + b == b;
    } else {
      assert (a + b)[1..] == a[1..] + b;
      if !fails(k) { JudgeOfSum(fails, k + 1, a[1..], b); }
    }
  }

  // ----- Laws of ownership -----

  lemma {:induction false} OwnedAllOfSum(a: seq<Mem>, b: seq<Mem>)
    ensures OwnedAll(a + b) == OwnedAll(a) + OwnedAll(b)
    decreases |a|
  {
    if a == [] {
      assert a + b == b;
    } else {
      assert (a + b)[1..] == a[1..] + b;
      OwnedAllOfSum(a[1..], b);
    }
  }

  lemma {:induction false} OwnedAllStep(parts: seq<Mem>, i: nat)
    requires i < |parts|
    ensures OwnedAll(parts[i..]) == Owned(parts[i]) + OwnedAll(parts[i + 1..])
  {
    hide Owned;
    assert parts[i..][1..] == parts[i + 1..];
  }

  /** Writing one part changes what is owned by that part. */
  lemma {:induction false} OwnedAllUpdate(parts: seq<Mem>, i: nat, m: Mem)
    requires i < |parts| && Owned(parts[i]) == multiset{}
    ensures OwnedAll(parts[i := m]) == OwnedAll(parts) + Owned(m)
  {
    hide Owned, OwnedAll;
    var a, b := parts[..i], parts[i + 1..];
    assert parts == a + parts[i..] && parts[i := m] == a + parts[i := m][i..];
    OwnedAllOfSum(a, parts[i..]);
    OwnedAllOfSum(a, parts[i := m][i..]);
    OwnedAllStep(parts, i);
    OwnedAllStep(parts[i := m], i);
    assert parts[i := m][i + 1..] == b;
  }

  lemma {:induction false} BlankOwnsNothing(l: Layout)
    ensures Owned(Blank(l)) == multiset{} && Fits(l, Blank(l))
    decreases l, 1
  {
    match l
    case Record(fields) => BlankPartsOwnNothing(fields);
    case Union(variants) => BlankUnionOwnsNothing(variants, 0);
    case Row(elem, size) =>
      BlankOwnsNothing(elem);
      AllOwnNothing(Repeat(size, Blank(elem)));
    case Entry(value) => BlankOwnsNothing(value);
    case _ =>
  }

  lemma {:induction false} BlankUnionOwnsNothing(variants: seq<Variant>, tag: int)
    ensures Owned(BlankUnion(variants, tag)) == multiset{} && Fits(Union(variants), BlankUnion(variants, tag))
    decreases variants, 1
  {
    if 0 <= tag < |variants| { BlankPartsOwnNothing(variants[tag].fields); }
  }

  lemma {:induction false} BlankPartsOwnNothing(fields: seq<Member>)
    ensures OwnedAll(BlankAll(fields)) == multiset{} && FitsAll(fields, Repeat(|fields|, false), BlankAll(fields))
    decreases fields, 0
  {
    forall i | 0 <= i < |fields|
      ensures Owned(BlankAll(fields)[i]) == multiset{} && Fits(fields[i].layout, BlankAll(fields)[i])
    {
      BlankPartOwnsNothing(fields[i]);
    }
    AllOwnNothing(BlankAll(fields));
  }

  lemma {:induction false} BlankPartOwnsNothing(f: Member)
    ensures Owned(BlankPart(f)) == multiset{} && Fits(f.layout, BlankPart(f))
    decreases f, 0
  {
    BlankOwnsNothing(f.layout);
  }

  lemma {:induction false} AllOwnNothing(parts: seq<Mem>)
    requires forall p :: p in parts ==> Owned(p) == multiset{}
    ensures OwnedAll(parts) == multiset{}
  {
    hide Owned;
    if parts != [] { AllOwnNothing(parts[1..]); }
  }

  // ----- Clearing -----

  /** sstr_free. */
  method FreeText(h: Heap, m: Mem)
    requires h.Valid() && m.Str? && Has(h.books, Owned(m))
    modifies h
    ensures h.Valid() && Trade(old(h.books), h.books, Owned(m), multiset{})
    ensures h.calls == old(h.calls) && h.next == old(h.next)
  {
    hide EachOnce, Has, Trade;
    match m.chars
    case None => NoTrade(h.books, Owned(m));
    case Some(c) =>
      Part(h.books, BlockOf(c.buffer), BlockOf(Some(c.head)));
      if c.buffer.Some? { h.Free(c.buffer.value); } else { NoTrade(h.books, BlockOf(c.buffer)); }
      FreeBoth(old(h.books), h.books, BlockOf(c.buffer), BlockOf(Some(c.head)));
      h.Free(c.head);
  }

  function Layouts(fields: seq<Member>): (ls: seq<Layout>)
    ensures |ls| == |fields| && forall i :: 0 <= i < |ls| ==> ls[i] == fields[i].layout
  {
    seq(|fields|, i requires 0 <= i < |fields| => fields[i].layout)
  }

  /** Frees all an object owns and leaves it blank. */
  method Clear(h: Heap, l: Layout, m: Mem) returns (z: Mem)
    requires h.Valid() && Fits(l, m) && Has(h.books, Owned(m))
    modifies h
    ensures h.Valid()
    ensures z == Blank(l)
    ensures Trade(old(h.books), h.books, Owned(m), multiset{})
    ensures h.calls == old(h.calls) && h.next == old(h.next)
    decreases m, 0
  {
    hide EachOnce, Has, Trade, OwnedAll, FitsAll, BlankAll;
    match l
    case Number => z := Num(0); NoTrade(h.books, Owned(m));
    case Text => FreeText(h, m); z := Str(None);
    case Record(fields) =>
      PartsFit(fields, m.has, m.parts);
      var parts := ClearAll(h, Layouts(fields), m.parts);
      AreBlank(fields, parts);
      z := Rec(Repeat(|fields|, false), parts);
    case Union(variants) =>
      if 0 <= m.tag < |variants| {
        PartsFit(variants[m.tag].fields, m.has, m.parts);
        var parts := ClearAll(h, Layouts(variants[m.tag].fields), m.parts);
      } else {
        NoParts(m.parts);
        NoTrade(h.books, Owned(m));
      }
      z := Blank(l);
    case Row(elem, size) =>
      var parts := ClearAll(h, Repeat(size, elem), m.parts);
      assert parts == Repeat(size, Blank(elem));
      z := Arr(parts);
    case List(elem) =>
      ClearList(h, elem, m.block, m.parts);
      z := Ptr(None, []);
    case Entry(value) =>
      ghost var was := h.books;
      Part(was, Owned(m.key), Owned(m.val));
      FreeText(h, m.key);
      FreeBoth(was, h.books, Owned(m.key), Owned(m.val));
      var val := Clear(h, value, m.val);
      z := Pair(Str(None), val);
  }

  /** The elements, then the block that holds them. */
  method ClearList(h: Heap, elem: Layout, block: Option<nat>, parts: seq<Mem>)
    requires h.Valid() && (forall p :: p in parts ==> Fits(elem, p)) && Has(h.books, Owned(Ptr(block, parts)))
    modifies h
    ensures h.Valid() && Trade(old(h.books), h.books, Owned(Ptr(block, parts)), multiset{})
    ensures h.calls == old(h.calls) && h.next == old(h.next)
    decreases parts, 1
  {
    hide EachOnce, Has, Trade, OwnedAll, Fits;
    Part(h.books, OwnedAll(parts), BlockOf(block));
    var zs := ClearAll(h, Repeat(|parts|, elem), parts);
    FreeBoth(old(h.books), h.books, OwnedAll(parts), BlockOf(block));
    if block.Some? { h.Free(block.value); } else { NoTrade(h.books, BlockOf(block)); }
  }

  lemma {:induction false} PartsFit(fields: seq<Member>, has: seq<bool>, parts: seq<Mem>)
    requires FitsAll(fields, has, parts)
    ensures |parts| == |fields| && forall i :: 0 <= i < |parts| ==> Fits(Layouts(fields)[i], parts[i])
  {
    hide Fits;
  }

  method ClearAll(h: Heap, ls: seq<Layout>, parts: seq<Mem>) returns (zs: seq<Mem>)
    requires h.Valid() && |ls| == |parts| && (forall i :: 0 <= i < |parts| ==> Fits(ls[i], parts[i]))
    requires Has(h.books, OwnedAll(parts))
    modifies h
    ensures h.Valid() && |zs| == |parts| && (forall i :: 0 <= i < |zs| ==> zs[i] == Blank(ls[i]))
    ensures Trade(old(h.books), h.books, OwnedAll(parts), multiset{})
    ensures h.calls == old(h.calls) && h.next == old(h.next)
    decreases parts, 0
  {
    hide EachOnce, Has, Trade, Fits, Owned, OwnedAll, Blank;
    zs := [];
    assert parts[0..] == parts;
    for i := 0 to |parts|
      invariant h.Valid() && |zs| == i && (forall k :: 0 <= k < i ==> zs[k] == Blank(ls[k]))
      invariant h.calls == old(h.calls) && h.next == old(h.next) && Has(h.books, OwnedAll(parts[i..]))
      invariant forall u :: Trade(h.books, u, OwnedAll(parts[i..]), multiset{})
                            ==> Trade(old(h.books), u, OwnedAll(parts), multiset{})
    {
      ghost var was := h.books;
      OwnedAllStep(parts, i);
      Part(was, Owned(parts[i]), OwnedAll(parts[i + 1..]));
      var z := Clear(h, ls[i], parts[i]);
      FreeBoth(was, h.books, Owned(parts[i]), OwnedAll(parts[i + 1..]));
      zs := zs + [z];
    }
    NoParts(parts[|parts|..]);
    NoTrade(h.books, OwnedAll(parts[|parts|..]));
  }

  lemma {:induction false} NoParts(parts: seq<Mem>)
    requires parts == []
    ensures OwnedAll(parts) == multiset{}
  {
  }

  lemma {:induction false} AreBlank(fields: seq<Member>, parts: seq<Mem>)
    requires |parts| == |fields| && forall i :: 0 <= i < |fields| ==> parts[i] == Blank(Layouts(fields)[i])
    ensures parts == BlankAll(fields)
  {
    hide Blank;
    forall i | 0 <= i < |fields| ensures parts[i] == BlankAll(fields)[i] {
      assert parts[i] == Blank(Layouts(fields)[i]) == BlankPart(fields[i]);
    }
  }

  // ----- Copying -----

  /** sstr_dup: neither allocation is checked. */
  method Dup(h: Heap, c: Chars) returns (out: Outcome, m: Mem)
    requires h.Valid()
    modifies h
    ensures h.Valid()
    ensures out == Judge(h.fails, old(h.calls), Plan(Text, Str(Some(c)))) && out != Failed
    ensures out == Copied ==> h.calls == old(h.calls) + |Plan(Text, Str(Some(c)))|
    ensures out == Copied ==> m.Str? && m.chars.Some? && m.chars.value.s == c.s && Trade(old(h.books), h.books, multiset{}, Owned(m))
  {
    hide EachOnce, Has, Trade;
    m := Str(None);
    var head := h.Malloc();
    if head == None { return Crashed, m; }
    ghost var was := h.books;
    var buffer := None;
    NoTrade(was, BlockOf(None));
    assert [Unchecked, Unchecked][1..] == [Unchecked];
    if |c.s| > Sstr.SHORT_STR_CAPACITY {
      buffer := h.Malloc();
      if buffer == None { return Crashed, m; }
    }
    TakeBoth(old(h.books), was, h.books, BlockOf(head), BlockOf(buffer));
    return Copied, Str(Some(Chars(head.value, buffer, c.s)));
  }

  /** A fresh copy of one member's content, into storage that was blank. */
  method CopyInto(h: Heap, l: Layout, src: Mem) returns (out: Outcome, m: Mem)
    requires h.Valid() && Fits(l, src)
    modifies h
    ensures h.Valid()
    ensures out == Judge(h.fails, old(h.calls), Plan(l, src))
    ensures out == Copied ==> h.calls == old(h.calls) + |Plan(l, src)|
    ensures out != Crashed ==> Fits(l, m) && Trade(old(h.books), h.books, multiset{}, Owned(m))
    ensures out == Copied ==> Same(l, m, src)
    decreases src, 1
  {
    hide EachOnce, Has, Trade, FitsAll, OwnedAll, BlankAll, SameFields, SameParts, PlanFields, PlanParts, Judge;
    match l
    case Number =>
      out, m := Copied, src;
      NoPlan(h.fails, h.calls, []);
      NoTrade(h.books, Owned(m));
    case Text =>
      out, m := CopyText(h, src);
    case Record(fields) =>
      BlankPartsOwnNothing(fields);
      NoTrade(h.books, OwnedAll(BlankAll(fields)));
      var has, parts;
      out, has, parts := CopyRecord(h, fields, Repeat(|fields|, false), BlankAll(fields), src.has, src.parts);
      m := Rec(has, parts);
    case Union(variants) =>
      BlankOwnsNothing(l);
      NoTrade(h.books, Owned(Blank(l)));
      out, m := CopyUnion(h, variants, Blank(l), src);
    case Row(elem, size) =>
      var parts;
      out, parts := CopyElements(h, elem, src.parts);
      m := Arr(parts);
    case List(elem) =>
      var block, parts;
      out, block, parts := CopyList(h, elem, src.parts);
      m := Ptr(block, parts);
    case Entry(value) =>
      var key, val;
      out, key, val := CopyEntry(h, value, src.key, src.val);
      m := Pair(key, val);
  }

  /** A missing string stays missing. */
  method CopyText(h: Heap, src: Mem) returns (out: Outcome, m: Mem)
    requires h.Valid() && src.Str?
    modifies h
    ensures h.Valid()
    ensures out == Judge(h.fails, old(h.calls), Plan(Text, src))
    ensures out == Copied ==> h.calls == old(h.calls) + |Plan(Text, src)|
    ensures out != Crashed ==> m.Str? && Trade(old(h.books), h.books, multiset{}, Owned(m))
    ensures out == Copied ==> Same(Text, m, src)
  {
    hide EachOnce, Has, Trade, Judge;
    out, m := Copied, Str(None);
    match src.chars
    case None =>
      NoPlan(h.fails, h.calls, []);
      NoTrade(h.books, Owned(m));
    case Some(c) => out, m := Dup(h, c);
  }

  lemma {:induction false} NoPlan(fails: nat -> bool, k: nat, plan: seq<Step>)
    requires plan == []
    ensures Judge(fails, k, plan) == Copied
  {
  }

  /** A map entry: its key, then its value. */
  method CopyEntry(h: Heap, value: Layout, key: Mem, val: Mem) returns (out: Outcome, key': Mem, val': Mem)
    requires h.Valid() && Fits(Text, key) && Fits(value, val)
    modifies h
    ensures h.Valid()
    ensures out == Judge(h.fails, old(h.calls), Plan(Text, key) + Plan(value, val))
    ensures out == Copied ==> h.calls == old(h.calls) + |Plan(Text, key) + Plan(value, val)|
    ensures out != Crashed ==> Fits(Text, key') && Fits(value, val')
    ensures out != Crashed ==> Trade(old(h.books), h.books, multiset{}, Owned(key') + Owned(val'))
    ensures out == Copied ==> Same(Text, key', key) && Same(value, val', val)
    decreases Pair(key, val), 0
  {
    hide EachOnce, Has, Trade, Fits, Owned, Same, Plan, Judge, Blank;
    JudgeOfSum(h.fails, h.calls, Plan(Text, key), Plan(value, val));
    out, key' := CopyInto(h, Text, key);
    val' := Blank(value);
    BlankOwnsNothing(value);
    ghost var was := h.books;
    NoTrade(was, Owned(val'));
    if out == Copied { out, val' := CopyInto(h, value, val); }
    if out != Crashed { TakeBoth(old(h.books), was, h.books, Owned(key'), Owned(val')); }
  }

  /** The loop over an array's elements, over storage that was zeroed first. */
  method CopyElements(h: Heap, elem: Layout, src: seq<Mem>) returns (out: Outcome, parts: seq<Mem>)
    requires h.Valid() && forall p :: p in src ==> Fits(elem, p)
    modifies h
    ensures h.Valid()
    ensures out == Judge(h.fails, old(h.calls), PlanParts(elem, src))
    ensures out == Copied ==> h.calls == old(h.calls) + |PlanParts(elem, src)|
    ensures out != Crashed ==> |parts| == |src| && (forall p :: p in parts ==> Fits(elem, p))
    ensures out != Crashed ==> Trade(old(h.books), h.books, multiset{}, OwnedAll(parts))
    ensures out == Copied ==> SameParts(elem, parts, src)
    decreases src, 0
  {
    hide EachOnce, Has, Trade, Fits, Owned, OwnedAll, Blank, Same, Plan, PlanParts, Judge;
    BlankOwnsNothing(elem);
    parts := Repeat(|src|, Blank(elem));
    AllOwnNothing(parts);
    NoTrade(h.books, OwnedAll(parts));
    assert src[0..] == src;
    for i := 0 to |src|
      invariant h.Valid() && CopiedUpTo(elem, src, i, parts, old(h.books), h.books)
      invariant Judge(h.fails, old(h.calls), PlanParts(elem, src)) == Judge(h.fails, h.calls, PlanParts(elem, src[i..]))
      invariant h.calls + |PlanParts(elem, src[i..])| == old(h.calls) + |PlanParts(elem, src)|
    {
      PlanPartsStep(elem, src, i);
      JudgeOfSum(h.fails, h.calls, Plan(elem, src[i]), PlanParts(elem, src[i + 1..]));
      ghost var was := h.books;
      var m;
      out, m := CopyInto(h, elem, src[i]);
      if out == Crashed { return; }
      PartTaken(elem, src, i, parts, m, old(h.books), was, h.books);
      parts := parts[i := m];
      if out == Failed { return; }
    }
    out := Copied;
    NoPartsPlanned(elem, src[|src|..]);
    NoPlan(h.fails, h.calls, PlanParts(elem, src[|src|..]));
  }

  /** The first `i` elements copied, the others blank, and the books in order. */
  ghost predicate CopiedUpTo(elem: Layout, src: seq<Mem>, i: nat, parts: seq<Mem>, before: Books, after: Books)
    requires i <= |src| && forall p :: p in src ==> Fits(elem, p)
  {
    && |parts| == |src| && (forall p :: p in parts ==> Fits(elem, p))
    && (forall k :: i <= k < |src| ==> parts[k] == Blank(elem))
    && (forall k :: 0 <= k < i ==> Same(elem, parts[k], src[k]))
    && Trade(before, after, multiset{}, OwnedAll(parts))
  }

  lemma {:induction false} PartTaken(elem: Layout, src: seq<Mem>, i: nat, parts: seq<Mem>, m: Mem, s: Books, t: Books,
        u: Books)
    requires i < |src| && forall p :: p in src ==> Fits(elem, p)
    requires CopiedUpTo(elem, src, i, parts, s, t) && Fits(elem, m) && Trade(t, u, multiset{}, Owned(m))
    ensures (forall p :: p in parts[i := m] ==> Fits(elem, p)) && Trade(s, u, multiset{}, OwnedAll(parts[i := m]))
    ensures Same(elem, m, src[i]) ==> CopiedUpTo(elem, src, i + 1, parts[i := m], s, u)
  {
    hide Trade, Fits, Owned, OwnedAll, Blank, Same;
    BlankOwnsNothing(elem);
    TakeBoth(s, t, u, OwnedAll(parts), Owned(m));
    OwnedAllUpdate(parts, i, m);
  }

  lemma {:induction false} PlanPartsStep(elem: Layout, src: seq<Mem>, i: nat)
    requires i < |src| && forall p :: p in src ==> Fits(elem, p)
    ensures PlanParts(elem, src[i..]) == Plan(elem, src[i]) + PlanParts(elem, src[i + 1..])
  {
    hide Fits, Plan;
    assert src[i..][1..] == src[i + 1..];
  }

  lemma {:induction false} NoPartsPlanned(elem: Layout, src: seq<Mem>)
    requires src == []
    ensures PlanParts(elem, src) == []
  {
  }

  /** An array or map: one checked block, made only when there is something to hold. */
  method CopyList(h: Heap, elem: Layout, src: seq<Mem>) returns (out: Outcome, block: Option<nat>, parts: seq<Mem>)
    requires h.Valid() && forall p :: p in src ==> Fits(elem, p)
    modifies h
    ensures h.Valid()
    ensures var plan := if src == [] then [] else [Checked] + PlanParts(elem, src);
            && out == Judge(h.fails, old(h.calls), plan)
            && (out == Copied ==> h.calls == old(h.calls) + |plan|)
    ensures out != Crashed ==>
              && (forall p :: p in parts ==> Fits(elem, p)) && (block.None? ==> parts == [])
              && Trade(old(h.books), h.books, multiset{}, Owned(Ptr(block, parts)))
    ensures out == Copied ==> SameParts(elem, parts, src)
    decreases src, 1
  {
    hide EachOnce, Has, Trade, Fits, Plan, PlanParts, Same, OwnedAll;
    block, parts := None, [];
    NoParts(parts);
    NoTrade(h.books, Owned(Ptr(None, parts)));
    if src == [] { return Copied, None, []; }
    assert ([Checked] + PlanParts(elem, src))[1..] == PlanParts(elem, src);
    block := h.Malloc();
    if block == None { return Failed, None, []; }
    ghost var was := h.books;
    out, parts := CopyElements(h, elem, src);
    if out != Crashed { TakeBoth(old(h.books), was, h.books, BlockOf(block), OwnedAll(parts)); }
  }

  /** The struct's own copy: clear, copy member by member, clear again on failure. */
  method CopyRecord(h: Heap, fields: seq<Member>, has: seq<bool>, parts: seq<Mem>, srcHas: seq<bool>, src: seq<Mem>)
    returns (out: Outcome, has': seq<bool>, parts': seq<Mem>)
    requires h.Valid() && FitsAll(fields, has, parts) && FitsAll(fields, srcHas, src) && Has(h.books, OwnedAll(parts))
    modifies h
    ensures h.Valid()
    ensures out == Judge(h.fails, old(h.calls), PlanFields(fields, srcHas, src))
    ensures out == Copied ==> h.calls == old(h.calls) + |PlanFields(fields, srcHas, src)|
    ensures out != Crashed ==> FitsAll(fields, has', parts')
    ensures out != Crashed ==> Trade(old(h.books), h.books, OwnedAll(parts), OwnedAll(parts'))
    ensures out == Copied ==> SameFields(fields, has', parts', srcHas, src)
    ensures out == Failed ==> has' == Repeat(|fields|, false) && parts' == BlankAll(fields)
    decreases src, 1
  {
    hide EachOnce, Has, Trade, FitsAll, OwnedAll, BlankAll, SameFields, PlanFields, Judge;
    ClearRecord(h, fields, has, parts);
    ghost var cleared := h.books;
    out, has', parts' := CopyFields(h, fields, srcHas, src);
    if out == Crashed { return; }
    FreeThenTake(old(h.books), cleared, h.books, OwnedAll(parts), OwnedAll(parts'));
    if out == Failed {
      ghost var was := h.books;
      ClearRecord(h, fields, has', parts');
      TakeThenFree(old(h.books), was, h.books, OwnedAll(parts), OwnedAll(parts'));
      has', parts' := Repeat(|fields|, false), BlankAll(fields);
      BlankPartsOwnNothing(fields);
    }
  }

  method ClearRecord(h: Heap, fields: seq<Member>, has: seq<bool>, parts: seq<Mem>)
    requires h.Valid() && FitsAll(fields, has, parts) && Has(h.books, OwnedAll(parts))
    modifies h
    ensures h.Valid() && Trade(old(h.books), h.books, OwnedAll(parts), multiset{})
    ensures h.calls == old(h.calls) && h.next == old(h.next)
  {
    hide EachOnce, Has, Trade, FitsAll, OwnedAll;
    PartsFit(fields, has, parts);
    var zs := ClearAll(h, Layouts(fields), parts);
  }

  /** Member by member; what an unset flag hides is not copied. */
  method CopyFields(h: Heap, fields: seq<Member>, srcHas: seq<bool>, src: seq<Mem>)
    returns (out: Outcome, has: seq<bool>, parts: seq<Mem>)
    requires h.Valid() && FitsAll(fields, srcHas, src)
    modifies h
    ensures h.Valid()
    ensures out == Judge(h.fails, old(h.calls), PlanFields(fields, srcHas, src))
    ensures out == Copied ==> h.calls == old(h.calls) + |PlanFields(fields, srcHas, src)|
    ensures out != Crashed ==> FitsAll(fields, has, parts) && Trade(old(h.books), h.books, multiset{}, OwnedAll(parts))
    ensures out == Copied ==> SameFields(fields, has, parts, srcHas, src)
    decreases src, 0
  {
    hide EachOnce, Has, Trade, Fits, Owned, OwnedAll, BlankAll, SameField, PlanField, PlanFields, Judge;
    BlankPartsOwnNothing(fields);
    has, parts := Repeat(|fields|, false), BlankAll(fields);
    NoTrade(h.books, OwnedAll(parts));
    assert fields[0..] == fields && srcHas[0..] == srcHas && src[0..] == src;
    for i := 0 to |fields|
      invariant h.Valid()
      invariant FitsAll(fields, has, parts)
      invariant forall k :: i <= k < |fields| ==> !has[k] && parts[k] == BlankPart(fields[k])
      invariant forall k :: 0 <= k < i ==> SameField(fields[k], has[k], parts[k], srcHas[k], src[k])
      invariant Trade(old(h.books), h.books, multiset{}, OwnedAll(parts))
      invariant Judge(h.fails, old(h.calls), PlanFields(fields, srcHas, src))
                == Judge(h.fails, h.calls, PlanFields(fields[i..], srcHas[i..], src[i..]))
      invariant h.calls + |PlanFields(fields[i..], srcHas[i..], src[i..])|
                == old(h.calls) + |PlanFields(fields, srcHas, src)|
    {
      PlanFieldsStep(fields, srcHas, src, i);
      JudgeOfSum(h.fails, h.calls, PlanField(fields[i], srcHas[i], src[i]),
                 PlanFields(fields[i + 1..], srcHas[i + 1..], src[i + 1..]));
      ghost var was := h.books;
      var m, flag;
      out, flag, m := CopyMember(h, fields[i], srcHas[i], src[i]);
      if out == Crashed { return; }
      TakeBoth(old(h.books), was, h.books, OwnedAll(parts), Owned(m));
      BlankPartOwnsNothing(fields[i]);
      OwnedAllUpdate(parts, i, m);
      has, parts := has[i := flag], parts[i := m];
      if out == Failed { return; }
    }
    out := Copied;
    NoFieldsPlanned(fields[|fields|..], srcHas[|fields|..], src[|fields|..]);
    NoPlan(h.fails, h.calls, PlanFields(fields[|fields|..], srcHas[|fields|..], src[|fields|..]));
  }

  /** The flag is set only after its member is copied. */
  method CopyMember(h: Heap, f: Member, srcHas: bool, src: Mem) returns (out: Outcome, has: bool, m: Mem)
    requires h.Valid() && Fits(f.layout, src) && (srcHas ==> f.flagged)
    modifies h
    ensures h.Valid()
    ensures out == Judge(h.fails, old(h.calls), PlanField(f, srcHas, src))
    ensures out == Copied ==> h.calls == old(h.calls) + |PlanField(f, srcHas, src)|
    ensures out != Crashed ==> Fits(f.layout, m) && (has ==> f.flagged) && Trade(old(h.books), h.books, multiset{}, Owned(m))
    ensures out == Copied ==> SameField(f, has, m, srcHas, src)
    decreases src, 2
  {
    hide EachOnce, Has, Trade, Fits, Owned, Blank, Same, Plan, Judge;
    out, has, m := Copied, false, BlankPart(f);
    BlankPartOwnsNothing(f);
    if !f.flagged || srcHas {
      out, m := CopyInto(h, f.layout, src);
      has := out == Copied && f.flagged;
    } else {
      NoPlan(h.fails, h.calls, []);
      NoTrade(h.books, Owned(m));
    }
  }

  lemma {:induction false} PlanFieldsStep(fields: seq<Member>, has: seq<bool>, src: seq<Mem>, i: nat)
    requires i < |src| && FitsAll(fields, has, src)
    ensures PlanFields(fields[i..], has[i..], src[i..])
            == PlanField(fields[i], has[i], src[i]) + PlanFields(fields[i + 1..], has[i + 1..], src[i + 1..])
  {
    hide Fits, PlanField;
    assert fields[i..][1..] == fields[i + 1..] && has[i..][1..] == has[i + 1..] && src[i..][1..] == src[i + 1..];
  }

  lemma {:induction false} NoFieldsPlanned(fields: seq<Member>, has: seq<bool>, src: seq<Mem>)
    requires src == [] && FitsAll(fields, has, src)
    ensures PlanFields(fields, has, src) == []
  {
  }

  /** The union's own copy: clear, set the tag, copy the payload the tag selects. */
  method CopyUnion(h: Heap, variants: seq<Variant>, dest: Mem, src: Mem) returns (out: Outcome, m: Mem)
    requires h.Valid() && Fits(Union(variants), dest) && Fits(Union(variants), src) && Has(h.books, Owned(dest))
    modifies h
    ensures h.Valid()
    ensures out == Judge(h.fails, old(h.calls), Plan(Union(variants), src))
    ensures out == Copied ==> h.calls == old(h.calls) + |Plan(Union(variants), src)|
    ensures out != Crashed ==> Fits(Union(variants), m) && Trade(old(h.books), h.books, Owned(dest), Owned(m))
    ensures out == Copied ==> Same(Union(variants), m, src)
    ensures out == Failed ==> m == Blank(Union(variants))
    decreases src, 0
  {
    hide EachOnce, Has, Trade, FitsAll, OwnedAll, BlankAll, SameFields, PlanFields, Judge;
    m := Clear(h, Union(variants), dest);
    ghost var cleared := h.books;
    out, m := Copied, BlankUnion(variants, src.tag);
    BlankUnionOwnsNothing(variants, src.tag);
    NoTrade(cleared, Owned(m));
    if 0 <= src.tag < |variants| {
      var has, parts;
      out, has, parts := CopyRecord(h, variants[src.tag].fields, m.has, m.parts, src.has, src.parts);
      m := Uni(src.tag, has, parts);
      if out == Crashed { return; }
    } else {
      NoPlan(h.fails, h.calls, []);
    }
    FreeThenTake(old(h.books), cleared, h.books, Owned(dest), Owned(m));
    if out == Failed {
      ghost var was := h.books;
      ghost var partial := m;
      m := Clear(h, Union(variants), m);
      TakeThenFree(old(h.books), was, h.books, Owned(dest), Owned(partial));
      BlankUnionOwnsNothing(variants, 0);
    }
  }

  // ----- What a caller sees -----

  /** A generated object at an address of its own. */
  class Cell {
    var mem: Mem

    constructor (mem: Mem)
      ensures this.mem == mem
    {
      this.mem := mem;
    }
  }

  /** Both objects can be cleared, and no block belongs to both. */
  ghost predicate Separate(h: Heap, l: Layout, dest: Cell, src: Cell)
    reads h, dest, src
  {
    && h.Valid() && (l.Record? || l.Union?) && Fits(l, dest.mem) && Fits(l, src.mem)
    && Has(h.books, Owned(dest.mem) + Owned(src.mem))
  }

  /**
   `Copied` is the C result 0 and `Failed` is -1. The first failing allocation decides. On 0 the
   objects are equal and share no block; on -1 `dest` is blank and each block taken was freed.
   */
  method Copy(h: Heap, l: Layout, dest: Cell?, src: Cell?) returns (out: Outcome)
    requires dest != null && src != null && dest != src ==> Separate(h, l, dest, src)
    modifies h, dest
    ensures dest == null || src == null ==> out == Failed && (dest != null ==> dest.mem == old(dest.mem))
    ensures dest != null && dest == src ==> out == Copied && dest.mem == old(dest.mem)
    ensures dest == null || src == null || dest == src ==> h.books == old(h.books) && h.calls == old(h.calls)
    ensures dest != null && src != null && dest != src ==>
              && out == Judge(h.fails, old(h.calls), Plan(l, src.mem)) && src.mem == old(src.mem) && h.Valid()
              && (out != Crashed ==>
                    && Separate(h, l, dest, src)
                    && h.books.live == old(h.books.live) - old(Owned(dest.mem)) + Owned(dest.mem)
                    && forall b :: b in old(Owned(dest.mem)) ==> h.books.freed[b] == 1)
              && (out == Copied ==>
                    && Same(l, dest.mem, src.mem)
                    && forall b :: b in Owned(dest.mem) ==> b !in Owned(src.mem) && old(h.next) <= b)
              && (out == Failed ==>
                    && dest.mem == Blank(l) && Owned(dest.mem) == multiset{}
                    && forall b :: old(h.next) <= b < h.next ==> h.books.freed[b] == 1)
  {
    hide EachOnce, Has, Trade, Fits, Owned, Same, Plan, Judge;
    if dest == null || src == null { return Failed; }
    if dest == src { return Copied; }
    BlankOwnsNothing(l);
    Part(h.books, Owned(dest.mem), Owned(src.mem));
    var m;
    out, m := CopyObject(h, l, dest.mem, src.mem);
    if out != Crashed {
      AfterCopy(old(h.books), h.books, old(h.next), h.next, Owned(dest.mem), Owned(src.mem), Owned(m));
      dest.mem := m;
    }
  }

  /** What was gained is new, what was lost was freed, and if nothing was gained all that was made was freed. */
  lemma {:induction false} AfterCopy(s: Books, t: Books, next: nat, next': nat,
                                     lost: multiset<nat>, kept: multiset<nat>, gained: multiset<nat>)
    requires EachOnce(s, next) && EachOnce(t, next') && Has(s, lost + kept) && Trade(s, t, lost, gained)
    ensures t.live == s.live - lost + gained && Has(t, gained + kept)
    ensures forall b :: b in gained ==> b !in kept && next <= b
    ensures forall b :: b in lost ==> t.freed[b] == 1
    ensures gained == multiset{} ==> forall b :: next <= b < next' ==> t.freed[b] == 1
  {
    forall b | b in gained ensures b !in kept && next <= b {
      assert (s.live + s.freed)[b] <= 1 && (t.live + t.freed)[b] <= 1;
    }
    forall b | b in lost ensures t.freed[b] == 1 {
      assert (s.live + s.freed)[b] <= 1 && (t.live + t.freed)[b] <= 1;
    }
    if gained == multiset{} {
      forall b | next <= b < next' ensures t.freed[b] == 1 {
        assert (s.live + s.freed)[b] == 0 && (t.live + t.freed)[b] == 1;
      }
    }
  }

  method CopyObject(h: Heap, l: Layout, dest: Mem, src: Mem) returns (out: Outcome, m: Mem)
    requires h.Valid() && (l.Record? || l.Union?) && Fits(l, dest) && Fits(l, src) && Has(h.books, Owned(dest))
    modifies h
    ensures h.Valid()
    ensures out == Judge(h.fails, old(h.calls), Plan(l, src))
    ensures out != Crashed ==> Fits(l, m) && Trade(old(h.books), h.books, Owned(dest), Owned(m))
    ensures out == Copied ==> Same(l, m, src)
    ensures out == Failed ==> m == Blank(l)
  {
    hide EachOnce, Has, Trade, FitsAll, OwnedAll, BlankAll, SameFields, PlanFields, Judge;
    match l
    case Record(fields) =>
      var has, parts;
      out, has, parts := CopyRecord(h, fields, dest.has, dest.parts, src.has, src.parts);
      m := Rec(has, parts);
    case Union(variants) => out, m := CopyUnion(h, variants, dest, src);
  }

  /** Every block changes hands, and the source is left blank. */
  method Move(h: Heap, l: Layout, dest: Cell?, src: Cell?) returns (out: Outcome)
    requires dest != null && src != null && dest != src ==> Separate(h, l, dest, src)
    modifies h, dest, src
    ensures out == if dest == null || src == null then Failed else Copied
    ensures dest == null || src == null || dest == src ==>
              h.books == old(h.books) && (dest != null ==> dest.mem == old(dest.mem)) && (src != null ==> src.mem == old(src.mem))
    ensures dest != null && src != null && dest != src ==>
              && Separate(h, l, dest, src) && dest.mem == old(src.mem) && src.mem == Blank(l)
              && h.books.live == old(h.books.live) - old(Owned(dest.mem)) && h.next == old(h.next) && h.calls == old(h.calls)
              && (forall b :: b in old(Owned(dest.mem)) ==> h.books.freed[b] == 1) && Owned(src.mem) == multiset{}
  {
    hide EachOnce, Has, Trade, Fits, Owned;
    if dest == null || src == null { return Failed; }
    if dest == src { return Copied; }
    BlankOwnsNothing(l);
    Part(h.books, Owned(dest.mem), Owned(src.mem));
    var z := Clear(h, l, dest.mem);
    AfterCopy(old(h.books), h.books, old(h.next), h.next, Owned(dest.mem), Owned(src.mem), multiset{});
    assert multiset{} + Owned(src.mem) == Owned(src.mem) + multiset{};
    dest.mem := src.mem;
    src.mem := Blank(l);
    return Copied;
  }

  // ----- When the promise of -1 on a failed allocation is kept -----

  /** No string is copied, so every allocation is a checked one. */
  predicate NoText(plan: seq<Step>) {
    Unchecked !in plan
  }

  /** Failing allocations give -1 whatever they are exactly when the plan holds no string's. */
  lemma {:induction false} AlwaysReportsIffNoText(plan: seq<Step>, k: nat)
    ensures NoText(plan) <==> forall fails: nat -> bool :: Judge(fails, k, plan) != Crashed
  {
    if NoText(plan) {
      forall fails: nat -> bool ensures Judge(fails, k, plan) != Crashed { FirstFailureDecides(fails, k, plan); }
    } else {
      var i :| 0 <= i < |plan| && plan[i] == Unchecked;
      var fails: nat -> bool := n => n == k + i;
      assert fails(k + i) && plan[k + i - k] == Unchecked;
      assert FirstFailureIs(fails, k, plan, Unchecked);
      FirstFailureDecides(fails, k, plan);
    }
  }

  /** One string member and no memory: not -1 but undefined behaviour. */
  lemma {:induction false} StringAllocationFailureIsNotReported(src: bytes)
    ensures var l := Record([Member(Text, false)]);
            var m := Rec([false], [Str(Some(Chars(0, None, src)))]);
            Fits(l, m) && Judge(_ => true, 0, Plan(l, m)) == Crashed
  {
    var m := Str(Some(Chars(0, None, src)));
    assert PlanFields([Member(Text, false)], [false], [m]) == Plan(Text, m) + [];
  }
}
