/** Emitting types so that each comes after the types it holds: bounded passes over a schema. */
module Ordering {
  import opened Bytes

  /** A declared type and the types it waits for. */
  datatype Decl = Decl(name: bytes, deps: set<bytes>)

  predicate DistinctNames(ds: seq<Decl>) {
    forall i, j :: 0 <= i < j < |ds| ==> ds[i].name != ds[j].name
  }

  predicate Named(ds: seq<Decl>, n: bytes) {
    exists d :: d in ds && d.name == n
  }

  /** The names given beforehand are none of the declared ones. */
  predicate Given(start: seq<bytes>, ds: seq<Decl>) {
    NoRepeats(start) && forall d :: d in ds ==> d.name !in start
  }

  // ----- The passes -----

  predicate Ready(d: Decl, out: seq<bytes>) {
    d.name !in out && forall n :: n in d.deps ==> n in out
  }

  function TryEmit(d: Decl, out: seq<bytes>): seq<bytes> {
    if Ready(d, out) then out + [d.name] else out
  }

  /** What is emitted early in a pass is there for the rest of it. */
  function Pass(ds: seq<Decl>, out: seq<bytes>): seq<bytes> {
    if ds == [] then out else Pass(ds[1..], TryEmit(ds[0], out))
  }

  /** At most `n` passes, until `total` names are out. */
  function Passes(ds: seq<Decl>, out: seq<bytes>, n: nat, total: nat): seq<bytes>
    decreases n
  {
    if n == 0 then out
    else
      var out' := Pass(ds, out);
      if |out'| >= total then out' else Passes(ds, out', n - 1, total)
  }

  /** The same, giving up after a pass that emits nothing. */
  function PassesEarly(ds: seq<Decl>, out: seq<bytes>, n: nat, total: nat): seq<bytes>
    decreases n
  {
    if n == 0 then out
    else
      var out' := Pass(ds, out);
      if |out'| >= total || out' == out then out' else PassesEarly(ds, out', n - 1, total)
  }

  function Emitted(ds: seq<Decl>, start: seq<bytes>): seq<bytes> {
    Passes(ds, start, |ds|, |start| + |ds|)
  }

  predicate Accepts(ds: seq<Decl>, start: seq<bytes>) {
    |Emitted(ds, start)| >= |start| + |ds|
  }

  // ----- What the order of the output means -----

  /** Each type once, and after all it waits for. */
  ghost predicate Sound(ds: seq<Decl>, start: seq<bytes>, out: seq<bytes>) {
    && start <= out && NoRepeats(out)
    && (forall i :: |start| <= i < |out| ==> Named(ds, out[i]))
    && (forall i, d :: 0 <= i < |out| && d in ds && d.name == out[i] ==> forall n :: n in d.deps ==> n in out[..i])
  }

  ghost predicate Closed(ds: seq<Decl>, start: seq<bytes>) {
    forall d, n :: d in ds && n in d.deps ==> Named(ds, n) || n in start
  }

  ghost predicate Edge(ds: seq<Decl>, a: bytes, b: bytes) {
    exists d :: d in ds && d.name == a && b in d.deps
  }

  ghost predicate Step(ds: seq<Decl>, p: seq<bytes>, i: nat)
    requires i + 1 < |p|
  {
    Edge(ds, p[i], p[i + 1])
  }

  ghost predicate Path(ds: seq<Decl>, p: seq<bytes>) {
    forall i :: 0 <= i < |p| - 1 ==> Step(ds, p, i)
  }

  ghost predicate Cyclic(ds: seq<Decl>) {
    exists p :: |p| >= 2 && Path(ds, p) && p[0] == p[|p| - 1]
  }

  // ----- Soundness -----

  lemma {:induction false} EmitKeepsSound(ds: seq<Decl>, start: seq<bytes>, d: Decl, out: seq<bytes>)
    requires DistinctNames(ds) && Given(start, ds) && Sound(ds, start, out) && d in ds
    ensures Sound(ds, start, TryEmit(d, out))
  {
    if Ready(d, out) {
      var out' := out + [d.name];
      forall i, c | 0 <= i < |out'| && c in ds && c.name == out'[i] ensures forall n :: n in c.deps ==> n in out'[..i] {
        if i < |out| {
          assert out'[..i] == out[..i] && c.name == out[i];
        } else {
          assert out'[..i] == out && c == d;
        }
      }
    }
  }

  lemma {:induction false} PassKeepsSound(ds: seq<Decl>, start: seq<bytes>, todo: seq<Decl>, out: seq<bytes>)
    requires DistinctNames(ds) && Given(start, ds) && Sound(ds, start, out) && forall d :: d in todo ==> d in ds
    ensures Sound(ds, start, Pass(todo, out)) && out <= Pass(todo, out)
    decreases |todo|
  {
    hide Sound, DistinctNames, Given;
    if todo != [] {
      EmitKeepsSound(ds, start, todo[0], out);
      PassKeepsSound(ds, start, todo[1..], TryEmit(todo[0], out));
    }
  }

  lemma {:induction false} PassesKeepSound(ds: seq<Decl>, start: seq<bytes>, out: seq<bytes>, n: nat, total: nat)
    requires DistinctNames(ds) && Given(start, ds) && Sound(ds, start, out)
    ensures Sound(ds, start, Passes(ds, out, n, total))
    decreases n
  {
    hide Sound, DistinctNames, Given;
    if n > 0 {
      PassKeepsSound(ds, start, ds, out);
      PassesKeepSound(ds, start, Pass(ds, out), n - 1, total);
    }
  }

  /** Accepted or not, whatever is emitted is emitted once and after its dependencies. */
  lemma {:induction false} EmittedIsSound(ds: seq<Decl>, start: seq<bytes>)
    requires DistinctNames(ds) && Given(start, ds)
    ensures Sound(ds, start, Emitted(ds, start))
  {
    PassesKeepSound(ds, start, start, |ds|, |start| + |ds|);
  }

  // ----- Passes that emit nothing -----

  lemma {:induction false} IdlePass(todo: seq<Decl>, out: seq<bytes>)
    ensures |out| <= |Pass(todo, out)|
    ensures |Pass(todo, out)| == |out| <==> Pass(todo, out) == out
    ensures Pass(todo, out) == out <==> forall d :: d in todo ==> !Ready(d, out)
    decreases |todo|
  {
    if todo != [] {
      IdlePass(todo[1..], TryEmit(todo[0], out));
      assert todo == [todo[0]] + todo[1..];
    }
  }

  /** Either all is out, or nothing more can be, or every pass so far emitted something. */
  lemma {:induction false} PassesProgress(ds: seq<Decl>, out: seq<bytes>, n: nat, total: nat)
    ensures var r := Passes(ds, out, n, total); |r| >= total || Pass(ds, r) == r || |r| >= |out| + n
    decreases n
  {
    if n > 0 {
      IdlePass(ds, out);
      var out' := Pass(ds, out);
      if out' == out {
        IdlePasses(ds, out, n, total);
      } else if |out'| < total {
        PassesProgress(ds, out', n - 1, total);
      }
    }
  }

  lemma {:induction false} IdlePasses(ds: seq<Decl>, out: seq<bytes>, n: nat, total: nat)
    requires Pass(ds, out) == out
    ensures Passes(ds, out, n, total) == out
    decreases n
  {
    if n > 0 { IdlePasses(ds, out, n - 1, total); }
  }

  /** Giving up early loses nothing. */
  lemma {:induction false} EarlyExitIsHarmless(ds: seq<Decl>, out: seq<bytes>, n: nat, total: nat)
    ensures PassesEarly(ds, out, n, total) == Passes(ds, out, n, total)
    decreases n
  {
    if n > 0 {
      var out' := Pass(ds, out);
      if out' == out {
        IdlePasses(ds, out, n, total);
      } else {
        EarlyExitIsHarmless(ds, out', n - 1, total);
      }
    }
  }

  // ----- Accepted exactly when closed and without a cycle -----

  lemma {:induction false} AcceptsIffAcyclic(ds: seq<Decl>, start: seq<bytes>)
    requires DistinctNames(ds) && Given(start, ds)
    ensures Accepts(ds, start) <==> Closed(ds, start) && !Cyclic(ds)
  {
    var out := Emitted(ds, start);
    EmittedIsSound(ds, start);
    if Accepts(ds, start) {
      AllEmitted(ds, start, out);
      SoundIsClosed(ds, start, out);
      if Cyclic(ds) {
        var p :| |p| >= 2 && Path(ds, p) && p[0] == p[|p| - 1];
        PathGoesBack(ds, start, out, p);
      }
    } else if Closed(ds, start) {
      PassesProgress(ds, start, |ds|, |start| + |ds|);
      StuckIsCyclic(ds, start, out);
    }
  }

  /** So many different names of declared types are all of them. */
  lemma {:induction false} AllEmitted(ds: seq<Decl>, start: seq<bytes>, out: seq<bytes>)
    requires DistinctNames(ds) && Sound(ds, start, out) && |out| >= |start| + |ds|
    ensures forall d :: d in ds ==> d.name in out
  {
    var names := seq(|ds|, i requires 0 <= i < |ds| => ds[i].name);
    var tail := out[|start|..];
    forall n | n in SetOf(tail) ensures n in SetOf(names) {
      var i :| 0 <= i < |tail| && tail[i] == n;
      assert Named(ds, out[|start| + i]);
      var d :| d in ds && d.name == n;
      var k :| 0 <= k < |ds| && ds[k] == d;
      assert names[k] == n;
    }
    DistinctCount(tail);
    DistinctCount(names);
    SubsetCount(SetOf(tail), SetOf(names));
    forall d | d in ds ensures d.name in out {
      var k :| 0 <= k < |ds| && ds[k] == d;
      assert names[k] in SetOf(names);
      assert d.name in tail;
    }
  }

  lemma {:induction false} SoundIsClosed(ds: seq<Decl>, start: seq<bytes>, out: seq<bytes>)
    requires Sound(ds, start, out) && forall d :: d in ds ==> d.name in out
    ensures Closed(ds, start)
  {
    forall d, n | d in ds && n in d.deps ensures Named(ds, n) || n in start {
      var i :| 0 <= i < |out| && out[i] == d.name;
      assert n in out[..i];
      var k :| 0 <= k < i && out[k] == n;
      if k < |start| { assert start[k] == n; } else { assert Named(ds, out[k]); }
    }
  }

  /** Along a path the places in the output only go down, so none comes back to its start. */
  lemma {:induction false} PathGoesBack(ds: seq<Decl>, start: seq<bytes>, out: seq<bytes>, p: seq<bytes>)
    requires Sound(ds, start, out) && (forall d :: d in ds ==> d.name in out) && |p| >= 2 && Path(ds, p)
    ensures p[0] != p[|p| - 1]
  {
    assert Step(ds, p, 0);
    var i :| 0 <= i < |out| && out[i] == p[0];
    PlaceOf(ds, start, out, p, i, |p| - 1);
  }

  lemma {:induction false} PlaceOf(ds: seq<Decl>, start: seq<bytes>, out: seq<bytes>, p: seq<bytes>, i: nat, k: nat)
    requires Sound(ds, start, out) && Path(ds, p) && k < |p| && i < |out| && out[i] == p[0]
    ensures k > 0 ==> p[k] in out[..i]
    ensures k == 0 ==> p[k] == out[i]
  {
    if k > 0 {
      PlaceOf(ds, start, out, p, i, k - 1);
      assert Step(ds, p, k - 1);
      var d :| d in ds && d.name == p[k - 1] && p[k] in d.deps;
      var j :| 0 <= j <= i && out[j] == p[k - 1];
      assert p[k] in out[..j];
      assert forall n :: n in out[..j] ==> n in out[..i];
    }
  }

  /** If nothing is ready and everything is declared, waiting types wait for waiting types. */
  lemma {:induction false} StuckIsCyclic(ds: seq<Decl>, start: seq<bytes>, out: seq<bytes>)
    requires DistinctNames(ds) && Given(start, ds) && Closed(ds, start) && Sound(ds, start, out)
    requires Pass(ds, out) == out && |out| < |start| + |ds|
    ensures Cyclic(ds)
  {
    hide Closed, Path, Cyclic, Pass, Ready;
    IdlePass(ds, out);
    var d := SomeWaiting(ds, start, out);
    var p := WaitingPath(ds, start, out, d.name, |ds|);
    var i, j := Repetition(ds, p);
    PartOfPath(ds, p, i, j);
  }

  lemma {:induction false} PartOfPath(ds: seq<Decl>, p: seq<bytes>, i: nat, j: nat)
    requires Path(ds, p) && i < j < |p| && p[i] == p[j]
    ensures Cyclic(ds)
  {
    hide Step;
    var c := p[i..j + 1];
    forall k | 0 <= k < |c| - 1 ensures Step(ds, c, k) {
      assert Step(ds, p, i + k);
      PartStep(ds, p, i, j, k);
    }
    assert |c| >= 2 && Path(ds, c) && c[0] == c[|c| - 1];
  }

  lemma {:induction false} PartStep(ds: seq<Decl>, p: seq<bytes>, i: nat, j: nat, k: nat)
    requires i < j < |p| && k < j - i && Step(ds, p, i + k)
    ensures Step(ds, p[i..j + 1], k)
  {
    hide Edge;
    var c := p[i..j + 1];
    assert c[k] == p[i + k] && c[k + 1] == p[i + k + 1];
  }

  ghost predicate Waiting(ds: seq<Decl>, out: seq<bytes>, n: bytes) {
    Named(ds, n) && n !in out
  }

  lemma {:induction false} SomeWaiting(ds: seq<Decl>, start: seq<bytes>, out: seq<bytes>) returns (d: Decl)
    requires DistinctNames(ds) && Given(start, ds) && Sound(ds, start, out) && |out| < |start| + |ds|
    ensures d in ds && d.name !in out
  {
    var names := seq(|ds|, i requires 0 <= i < |ds| => ds[i].name);
    var tail := out[|start|..];
    if forall n :: n in names ==> n in tail {
      DistinctCount(tail);
      DistinctCount(names);
      SubsetCount(SetOf(names), SetOf(tail));
    }
    var n :| n in names && n !in tail;
    var k :| 0 <= k < |names| && names[k] == n;
    d := ds[k];
  }

  /** From a waiting type on, as many waiting types as one likes. */
  lemma {:induction false} WaitingPath(ds: seq<Decl>, start: seq<bytes>, out: seq<bytes>, first: bytes, k: nat) returns (p: seq<bytes>)
    requires Closed(ds, start) && start <= out && Waiting(ds, out, first) && forall d :: d in ds ==> !Ready(d, out)
    ensures |p| == k + 1 && p[0] == first && Path(ds, p) && forall n :: n in p ==> Waiting(ds, out, n)
    decreases k
  {
    if k == 0 { return [first]; }
    var d :| d in ds && d.name == first;
    assert !Ready(d, out);
    var n :| n in d.deps && n !in out;
    var rest := WaitingPath(ds, start, out, n, k - 1);
    p := [first] + rest;
    forall i | 0 <= i < |p| - 1 ensures Step(ds, p, i) {
      if i > 0 {
        assert Step(ds, rest, i - 1);
        assert p[i] == rest[i - 1] && p[i + 1] == rest[i];
      }
    }
  }

  /** More names of declared types than there are declarations: one comes twice. */
  lemma {:induction false} Repetition(ds: seq<Decl>, p: seq<bytes>) returns (i: nat, j: nat)
    requires DistinctNames(ds) && |p| > |ds| && forall n :: n in p ==> Named(ds, n)
    ensures i < j < |p| && p[i] == p[j]
  {
    if NoRepeats(p) {
      var names := seq(|ds|, i requires 0 <= i < |ds| => ds[i].name);
      forall n | n in SetOf(p) ensures n in SetOf(names) {
        var d :| d in ds && d.name == n;
        var k :| 0 <= k < |ds| && ds[k] == d;
        assert names[k] == n;
      }
      DistinctCount(p);
      DistinctCount(names);
      SubsetCount(SetOf(p), SetOf(names));
    }
    i, j :| 0 <= i < j < |p| && p[i] == p[j];
  }

  // ----- The generators' loops -----

  /** What one pass calls for each type. */
  method DoEach(d: Decl, out: seq<bytes>) returns (out': seq<bytes>)
    ensures out' == TryEmit(d, out)
  {
    if d.name in out { return out; }
    if exists n :: n in d.deps && n !in out { return out; }
    out' := out + [d.name];
  }

  method OnePass(ds: seq<Decl>, out: seq<bytes>) returns (out': seq<bytes>)
    ensures out' == Pass(ds, out)
  {
    hide TryEmit;
    out' := out;
    assert ds[0..] == ds;
    for i := 0 to |ds|
      invariant Pass(ds[i..], out') == Pass(ds, out)
    {
      assert ds[i..][1..] == ds[i + 1..];
      out' := DoEach(ds[i], out');
    }
  }

  /** The C generator: as many passes as there are types, structs before unions in each. */
  method GencodeSource(structs: seq<Decl>, oneofs: seq<Decl>) returns (ok: bool, out: seq<bytes>)
    requires DistinctNames(structs + oneofs)
    ensures out == Emitted(structs + oneofs, []) && Sound(structs + oneofs, [], out)
    ensures ok <==> Closed(structs + oneofs, []) && !Cyclic(structs + oneofs)
  {
    hide Sound, Closed, Cyclic;
    ghost var ds := structs + oneofs;
    var total := |structs| + |oneofs|;
    out := [];
    var i := 0;
    while i < total
      invariant 0 <= i <= total && Passes(ds, out, total - i, total) == Passes(ds, [], total, total)
    {
      PassInTwo(structs, oneofs, out);
      out := OnePass(structs, out);
      out := OnePass(oneofs, out);
      i := i + 1;
      if |out| >= total { break; }
    }
    EmittedIsSound(ds, []);
    AcceptsIffAcyclic(ds, []);
    ok := |out| >= total;
  }

  lemma {:induction false} PassInTwo(a: seq<Decl>, b: seq<Decl>, out: seq<bytes>)
    ensures Pass(a + b, out) == Pass(b, Pass(a, out))
    decreases |a|
  {
    hide TryEmit;
    if a == [] {
      assert a + b == b;
    } else {
      assert (a + b)[1..] == a[1..] + b;
      PassInTwo(a[1..], b, TryEmit(a[0], out));
    }
  }

  /** The Rust generator: the enums are out from the start, and a pass that emits nothing is the last. */
  method GencodeRust(structs: seq<Decl>, oneofs: seq<Decl>, enums: seq<bytes>) returns (ok: bool, out: seq<bytes>)
    requires DistinctNames(structs + oneofs) && Given(enums, structs + oneofs)
    ensures out == Emitted(structs + oneofs, enums) && Sound(structs + oneofs, enums, out)
    ensures ok <==> Closed(structs + oneofs, enums) && !Cyclic(structs + oneofs)
  {
    hide Sound, Closed, Cyclic;
    ghost var ds := structs + oneofs;
    var total := |structs| + |oneofs|;
    out := enums;
    var round := 0;
    while round < total
      invariant 0 <= round <= total
      invariant PassesEarly(ds, out, total - round, |enums| + total) == PassesEarly(ds, enums, total, |enums| + total)
    {
      PassInTwo(structs, oneofs, out);
      var before := out;
      out := OnePass(structs, out);
      out := OnePass(oneofs, out);
      round := round + 1;
      if |out| >= |enums| + total { break; }
      if out == before { break; }
    }
    EarlyExitIsHarmless(ds, enums, total, |enums| + total);
    EmittedIsSound(ds, enums);
    AcceptsIffAcyclic(ds, enums);
    ok := |out| - |enums| >= total;
  }

  // ----- Names of declared types -----

  datatype Kind = Struct | Enum | Oneof
  datatype Names = Names(structs: set<bytes>, enums: set<bytes>, oneofs: set<bytes>)

  predicate Disjoint(t: Names) {
    t.structs !! t.enums && t.structs !! t.oneofs && t.enums !! t.oneofs
  }

  function OfKind(t: Names, k: Kind): set<bytes> {
    match k
    case Struct => t.structs
    case Enum => t.enums
    case Oneof => t.oneofs
  }

  /** Own table first, then the two others. */
  predicate NameAvailable(t: Names, k: Kind, n: bytes) {
    && n !in OfKind(t, k)
    && (k != Struct ==> n !in t.structs)
    && (k != Enum ==> n !in t.enums)
    && (k != Oneof ==> n !in t.oneofs)
  }

  function Register(t: Names, k: Kind, n: bytes): Option<Names> {
    if !NameAvailable(t, k, n) then None
    else
      match k
      case Struct => Some(t.(structs := t.structs + {n}))
      case Enum => Some(t.(enums := t.enums + {n}))
      case Oneof => Some(t.(oneofs := t.oneofs + {n}))
  }

  function RegisterAll(t: Names, items: seq<(Kind, bytes)>): Option<Names>
    decreases |items|
  {
    if items == [] then Some(t)
    else
      match Register(t, items[0].0, items[0].1)
      case None => None
      case Some(t') => RegisterAll(t', items[1..])
  }

  /** A schema parses only when no two of its types share a name; then the tables are disjoint. */
  lemma {:induction false} RegisteredApart(t: Names, items: seq<(Kind, bytes)>)
    requires Disjoint(t)
    ensures RegisterAll(t, items).Some? <==>
              && (forall i, j :: 0 <= i < j < |items| ==> items[i].1 != items[j].1)
              && (forall i :: 0 <= i < |items| ==> items[i].1 !in t.structs + t.enums + t.oneofs)
    ensures RegisterAll(t, items).Some? ==> Disjoint(RegisterAll(t, items).value)
    ensures RegisterAll(t, items).Some? ==>
              forall i :: 0 <= i < |items| ==> items[i].1 in OfKind(RegisterAll(t, items).value, items[i].0)
    ensures RegisterAll(t, items).Some? ==>
              forall k, n :: n in OfKind(t, k) ==> n in OfKind(RegisterAll(t, items).value, k)
    decreases |items|
  {
    if items != [] && Register(t, items[0].0, items[0].1).Some? {
      RegisteredApart(Register(t, items[0].0, items[0].1).value, items[1..]);
    }
  }

  // ----- What a declaration waits for -----

  datatype Ref = Plain | StructOf(name: bytes) | OneofOf(name: bytes) | MapOfStruct(name: bytes) | MapOfOneof(name: bytes)

  /** A field's type as written: a builtin when it has no name. */
  datatype FieldType = FieldType(inMap: bool, name: Option<bytes>)
  datatype StructDecl = StructDecl(name: bytes, fields: seq<Ref>)

  /** What the parser takes a type for, by the tables it has so far: in a map, whatever is no enum is a struct. */
  function RefOf(t: Names, f: FieldType): Ref {
    match f.name
    case None => Plain
    case Some(n) =>
      if n in t.enums then Plain
      else if f.inMap then MapOfStruct(n)
      else if n in t.oneofs then OneofOf(n)
      else StructOf(n)
  }

  /** What validation asks of a reference once all types are known. */
  predicate Defined(t: Names, r: Ref) {
    match r
    case StructOf(n) => n in t.structs
    case OneofOf(n) => n in t.oneofs
    case MapOfStruct(n) => n in t.structs
    case _ => true
  }

  /** The C generator does not look at unions held by maps. */
  function WaitsC(r: Ref): set<bytes> {
    match r
    case StructOf(n) => {n}
    case OneofOf(n) => {n}
    case MapOfStruct(n) => {n}
    case _ => {}
  }

  function WaitsRust(r: Ref): set<bytes> {
    if r.Plain? then {} else {r.name}
  }

  function Waits(rust: bool, fields: seq<Ref>): set<bytes> {
    if fields == [] then {} else (if rust then WaitsRust(fields[0]) else WaitsC(fields[0])) + Waits(rust, fields[1..])
  }

  function Decls(rust: bool, structs: seq<StructDecl>): (ds: seq<Decl>)
    ensures |ds| == |structs|
  {
    seq(|structs|, i requires 0 <= i < |structs| => Decl(structs[i].name, Waits(rust, structs[i].fields)))
  }

  /** Parsed against some tables, and valid in the final ones. */
  ghost predicate ParsedAndDefined(t: Names, fields: seq<Ref>) {
    forall r :: r in fields ==> Defined(t, r) && exists t', f :: r == RefOf(t', f)
  }

  lemma {:induction false} SameWaits(t: Names, fields: seq<Ref>)
    requires ParsedAndDefined(t, fields)
    ensures Waits(true, fields) == Waits(false, fields) <= t.structs + t.oneofs
  {
    if fields != [] {
      SameWaits(t, fields[1..]);
      assert fields[0] in fields;
    }
  }

  /** Starting with the enums makes a difference exactly when a type waits for an enum. */
  lemma {:induction false} EnumsMatterIffWaitedFor(ds: seq<Decl>, enums: seq<bytes>)
    requires DistinctNames(ds) && Given(enums, ds)
    ensures Accepts(ds, []) <==> Accepts(ds, enums) && forall d, n :: d in ds && n in d.deps ==> n !in enums
  {
    hide Accepts, Closed, Cyclic, DistinctNames;
    assert Given([], ds);
    AcceptsIffAcyclic(ds, []);
    AcceptsIffAcyclic(ds, enums);
    ClosedWithEnums(ds, enums);
  }

  lemma {:induction false} ClosedWithEnums(ds: seq<Decl>, enums: seq<bytes>)
    requires Given(enums, ds)
    ensures Closed(ds, []) <==> Closed(ds, enums) && forall d, n :: d in ds && n in d.deps ==> n !in enums
  {
    if Closed(ds, []) {
      forall d, n | d in ds && n in d.deps ensures n !in enums {
        assert Named(ds, n);
      }
    }
  }

  /** On a schema that passed validation the two generators see the same types waiting, and accept alike. */
  lemma {:induction false} GeneratorsAgree(t: Names, structs: seq<StructDecl>, oneofs: seq<Decl>, enums: seq<bytes>)
    requires Disjoint(t) && (forall s :: s in structs ==> ParsedAndDefined(t, s.fields))
    requires (forall d :: d in oneofs ==> d.deps <= t.structs) && forall n :: n in enums ==> n in t.enums
    requires DistinctNames(Decls(true, structs) + oneofs) && Given(enums, Decls(true, structs) + oneofs)
    ensures Decls(true, structs) == Decls(false, structs)
    ensures Accepts(Decls(false, structs) + oneofs, []) <==> Accepts(Decls(true, structs) + oneofs, enums)
  {
    var ds := Decls(true, structs) + oneofs;
    forall i | 0 <= i < |structs|
      ensures Decls(true, structs)[i] == Decls(false, structs)[i] && ds[i].deps <= t.structs + t.oneofs
    {
      assert structs[i] in structs;
      SameWaits(t, structs[i].fields);
    }
    forall d, n | d in ds && n in d.deps ensures n !in enums {
      var k :| 0 <= k < |ds| && ds[k] == d;
      if k >= |structs| { assert ds[k] == oneofs[k - |structs|]; }
    }
    EnumsMatterIffWaitedFor(ds, enums);
  }
}
