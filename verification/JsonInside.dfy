/**
 Places inside a well-formed text: the brackets still open around them, and the one that closes
 each. A reader that stops inside a value it should have finished stands at such a place.
 */
module JsonInside {
  import opened Bytes
  import opened JsonLex
  import opened JsonSkip
  import opened JsonTag

  datatype Frame = Bracketed | Braced

  /** What may come next: anything behind an opener, an item behind a comma, a colon, a member's value, or a comma or closer. */
  datatype At = First | Item | Colon | Datum | Behind

  function Closer(f: Frame): Kind {
    if f == Bracketed then Punct(CLOSE_BRACKET) else Punct(CLOSE_BRACE)
  }

  datatype Place = Place(at: At, open: seq<Frame>)

  /** The keys a text may hold; without a set any. */
  type Names = Option<set<bytes>>

  const ANY: Names := None

  predicate Allowed(names: Names, key: bytes) {
    names.Some? ==> CString(key) in names.value
  }

  /** One token further, innermost bracket first, or `None` where the grammar has no such token or the key is not allowed. */
  function Step(names: Names, p: Place, l: Lexeme): (q: Option<Place>)
    requires p.open != []
    ensures q.Some? ==> l.kind != Eof && l.kind != Error
  {
    var k := l.kind;
    var value := p.at == Datum || (p.open[0] == Bracketed && (p.at == First || p.at == Item));
    if value && HasText(k) then Some(Place(Behind, p.open))
    else if value && k == Punct(OPEN_BRACKET) then Some(Place(First, [Bracketed] + p.open))
    else if value && k == Punct(OPEN_BRACE) then Some(Place(First, [Braced] + p.open))
    else if p.open[0] == Braced && (p.at == First || p.at == Item) && k == String && Allowed(names, l.text) then
      Some(Place(Colon, p.open))
    else if p.at == Colon && k == Punct(COLON) then Some(Place(Datum, p.open))
    else if p.at == Behind && k == Punct(COMMA) then Some(Place(Item, p.open))
    else if (p.at == First || p.at == Behind) && k == Closer(p.open[0]) then Some(Place(Behind, p.open[1..]))
    else None
  }

  /** What follows the bracket that closes the outermost of the open ones, if the text is well-formed up to it. */
  function Run(names: Names, p: Place, s: bytes): (r: Option<bytes>)
    ensures r.Some? ==> |r.value| <= |s| && (p.open != [] ==> |r.value| < |s|)
    decreases |s|
  {
    if p.open == [] then Some(s)
    else
      var l := Next(s);
      match Step(names, p, l)
      case None => None
      case Some(q) => Run(names, q, l.rest)
  }

  // ----- Nesting -----

  /** The inner brackets close before the outer ones. */
  lemma {:induction false} RunSplits(names: Names, at: At, a: seq<Frame>, b: seq<Frame>, s: bytes)
    requires a != []
    ensures Run(names, Place(at, a + b), s)
            == match Run(names, Place(at, a), s)
               case None => None
               case Some(t) => Run(names, Place(Behind, b), t)
    decreases |s|
  {
    hide Next, Step;
    var l := Next(s);
    StepSplits(names, at, a, b, l);
    match Step(names, Place(at, a), l)
    case None =>
    case Some(q) =>
      if q.open != [] { RunSplits(names, q.at, q.open, b, l.rest); }
  }

  lemma {:induction false} StepSplits(names: Names, at: At, a: seq<Frame>, b: seq<Frame>, l: Lexeme)
    requires a != []
    ensures match Step(names, Place(at, a), l)
            case None => Step(names, Place(at, a + b), l) == None
            case Some(q) =>
              && Step(names, Place(at, a + b), l) == Some(Place(q.at, q.open + b))
              && (q.open == [] ==> Place(q.at, q.open + b) == Place(Behind, b))
  {
    hide Allowed;
    assert (a + b)[0] == a[0] && (a + b)[1..] == a[1..] + b;
    assert [Bracketed] + (a + b) == [Bracketed] + a + b && [Braced] + (a + b) == [Braced] + a + b;
    assert [] + b == b;
  }

  /** The tokens up to the end tell which brackets are open. */
  lemma {:induction false} SameOpen(names: Names, p: Place, q: Place, s: bytes, r: bytes)
    requires Run(names, p, s) == Some(r) && Run(names, q, s) == Some(r)
    ensures p.open == q.open
    decreases |s|
  {
    hide Next, Step;
    if p.open != [] && q.open != [] {
      var l := Next(s);
      SameOpen(names, Step(names, p, l).value, Step(names, q, l).value, l.rest, r);
      SameOpenBefore(names, p, q, l);
    }
  }

  lemma {:induction false} SameOpenBefore(names: Names, p: Place, q: Place, l: Lexeme)
    requires p.open != [] && q.open != [] && Step(names, p, l).Some? && Step(names, q, l).Some?
    requires Step(names, p, l).value.open == Step(names, q, l).value.open
    ensures p.open == q.open
  {
    hide Allowed;
    var p', q' := Step(names, p, l).value, Step(names, q, l).value;
    if l.kind == Punct(CLOSE_BRACKET) || l.kind == Punct(CLOSE_BRACE) {
      assert p.open == [p.open[0]] + p.open[1..] && q.open == [q.open[0]] + q.open[1..];
    } else if Opens(l.kind) {
      assert p.open == p'.open[1..] && q.open == q'.open[1..];
    }
  }

  // ----- Values -----

  /** A place where a value may start. */
  predicate TakesValue(p: Place) {
    p.open != [] && (p.at == Datum || (p.open[0] == Bracketed && (p.at == First || p.at == Item)))
  }

  function Passed(p: Place): Place {
    Place(Behind, p.open)
  }

  /** A value whose keys are all allowed. */
  predicate NamedValue(names: Names, v: bytes) {
    && Value(v).Some?
    && (Opens(Next(v).kind) ==>
          Run(names, Place(First, [if Next(v).kind == Punct(OPEN_BRACE) then Braced else Bracketed]), Next(v).rest) == Value(v))
  }

  /** The members of an object likewise, and the elements of an array. */
  predicate NamedMembers(names: Names, s: bytes) {
    Members(s).Some? && Run(names, Place(First, [Braced]), s) == Members(s)
  }

  predicate NamedObject(names: Names, s: bytes) {
    Next(s).kind == Punct(CLOSE_BRACE) || NamedMembers(names, s)
  }

  predicate NamedElements(names: Names, s: bytes) {
    Elements(s).Some? && Run(names, Place(First, [Bracketed]), s) == Elements(s)
  }

  lemma {:induction false} RunOverValue(names: Names, p: Place, s: bytes)
    requires TakesValue(p) && NamedValue(names, s)
    ensures Run(names, p, s) == Run(names, Passed(p), Value(s).value)
  {
    hide Next, Elements, Members, Allowed;
    var l := Next(s);
    if Opens(l.kind) {
      RunSplits(names, First, [if l.kind == Punct(OPEN_BRACE) then Braced else Bracketed], p.open, l.rest);
    }
  }

  /** Inside a well-formed text a value's place holds a value, and the text goes on behind it. */
  lemma {:induction false} ValueAt(names: Names, p: Place, s: bytes)
    requires TakesValue(p) && Run(names, p, s).Some? && !(p.at == First && Next(s).kind == Punct(CLOSE_BRACKET))
    ensures NamedValue(names, s) && Run(names, p, s) == Run(names, Passed(p), Value(s).value)
    decreases |s|, 0
  {
    hide Next, Elements, Members, Allowed;
    var l := Next(s);
    if l.kind == Punct(OPEN_BRACKET) {
      RunSplits(names, First, [Bracketed], p.open, l.rest);
      if Next(l.rest).kind != Punct(CLOSE_BRACKET) { ElementsAt(names, First, l.rest); }
    } else if l.kind == Punct(OPEN_BRACE) {
      RunSplits(names, First, [Braced], p.open, l.rest);
      if Next(l.rest).kind != Punct(CLOSE_BRACE) { MembersAt(names, First, l.rest); }
    }
    RunOverValue(names, p, s);
  }

  lemma {:induction false} ElementsAt(names: Names, at: At, s: bytes)
    requires (at == First || at == Item) && Run(names, Place(at, [Bracketed]), s).Some?
    requires !(at == First && Next(s).kind == Punct(CLOSE_BRACKET))
    ensures Elements(s).Some? && Run(names, Place(at, [Bracketed]), s) == Elements(s)
    decreases |s|, 1
  {
    hide Next, Value, NamedValue;
    var p := Place(at, [Bracketed]);
    ValueAt(names, p, s);
    NamedIsValue(names, s);
    var t := Value(s).value;
    assert p.open[1..] == [];
    if Next(t).kind == Punct(COMMA) { ElementsAt(names, Item, Next(t).rest); }
  }

  lemma {:induction false} MembersAt(names: Names, at: At, s: bytes)
    requires (at == First || at == Item) && Run(names, Place(at, [Braced]), s).Some?
    requires !(at == First && Next(s).kind == Punct(CLOSE_BRACE))
    ensures Members(s).Some? && Run(names, Place(at, [Braced]), s) == Members(s)
    decreases |s|, 1
  {
    hide Next, Value, NamedValue;
    var p := Place(at, [Braced]);
    assert p.open[0] == Braced && p.open[1..] == [];
    KeyAt(names, p, s);
    var v := MemberValue(s).value;
    ValueAt(names, Place(Datum, p.open), v);
    NamedIsValue(names, v);
    var t := Value(v).value;
    if Next(t).kind == Punct(COMMA) { MembersAt(names, Item, Next(t).rest); }
  }

  lemma {:induction false} NamedIsValue(names: Names, v: bytes)
    requires NamedValue(names, v)
    ensures Value(v).Some?
  {
  }

  /** A key's place holds an allowed key and a colon. */
  lemma {:induction false} KeyAt(names: Names, p: Place, s: bytes)
    requires p.open != [] && p.open[0] == Braced && (p.at == First || p.at == Item) && Run(names, p, s).Some?
    requires !(p.at == First && Next(s).kind == Punct(CLOSE_BRACE))
    ensures MemberValue(s).Some? && Allowed(names, Next(s).text)
    ensures Run(names, p, s) == Run(names, Place(Datum, p.open), MemberValue(s).value)
  {
    hide Next, Allowed;
    var k := Next(s);
    assert k.kind == String && Step(names, p, k) == Some(Place(Colon, p.open));
    assert Run(names, p, s) == Run(names, Place(Colon, p.open), k.rest);
  }

  // ----- Without names every value is a value -----

  lemma {:induction false} ValueIsNamed(v: bytes)
    requires Value(v).Some?
    ensures NamedValue(ANY, v)
    decreases |v|, 0
  {
    hide Next, Elements, Members;
    var s := Next(v).rest;
    assert [Bracketed][1..] == [] && [Braced][1..] == [];
    if Next(v).kind == Punct(OPEN_BRACKET) {
      if Next(s).kind == Punct(CLOSE_BRACKET) { RunOverCloser(ANY, First, Bracketed, s); } else { ElementsAreNamed(First, s); }
    } else if Next(v).kind == Punct(OPEN_BRACE) {
      if Next(s).kind == Punct(CLOSE_BRACE) { RunOverCloser(ANY, First, Braced, s); } else { MembersAreNamed(First, s); }
    }
  }

  lemma {:induction false} RunOverCloser(names: Names, at: At, f: Frame, s: bytes)
    requires (at == First || at == Behind) && Next(s).kind == Closer(f)
    ensures Run(names, Place(at, [f]), s) == Some(Next(s).rest)
  {
    hide Next, Allowed;
    assert [f][1..] == [];
    assert Step(names, Place(at, [f]), Next(s)) == Some(Place(Behind, []));
  }

  lemma {:induction false} ElementsAreNamed(at: At, s: bytes)
    requires (at == First || at == Item) && Elements(s).Some?
    ensures Run(ANY, Place(at, [Bracketed]), s) == Elements(s)
    decreases |s|, 1
  {
    hide Next, Value, NamedValue;
    var p := Place(at, [Bracketed]);
    assert p.open[1..] == [];
    ValueIsNamed(s);
    RunOverValue(ANY, p, s);
    var t := Value(s).value;
    if Next(t).kind == Punct(COMMA) { ElementsAreNamed(Item, Next(t).rest); }
  }

  lemma {:induction false} MembersAreNamed(at: At, s: bytes)
    requires (at == First || at == Item) && Members(s).Some?
    ensures Run(ANY, Place(at, [Braced]), s) == Members(s)
    decreases |s|, 1
  {
    hide Next, Value, NamedValue;
    var p := Place(at, [Braced]);
    assert p.open[1..] == [] && p.open[0] == Braced;
    var v := MemberValue(s).value;
    assert Run(ANY, p, s) == Run(ANY, Place(Colon, p.open), Next(s).rest);
    assert Run(ANY, p, s) == Run(ANY, Place(Datum, p.open), v);
    ValueIsNamed(v);
    RunOverValue(ANY, Place(Datum, p.open), v);
    var t := Value(v).value;
    if Next(t).kind == Punct(COMMA) { MembersAreNamed(Item, Next(t).rest); }
  }

  // ----- The names of a document -----

  /** The keys in a text, as C strings, up to its last `n` octets: strings with a colon behind. */
  function Keys(s: bytes, n: nat): set<bytes>
    decreases |s|
  {
    var l := Next(s);
    if |s| <= n || |l.rest| >= |s| then {}
    else (if l.kind == String && Next(l.rest).kind == Punct(COLON) then {CString(l.text)} else {}) + Keys(l.rest, n)
  }

  /** A text's own keys are all it needs. */
  lemma {:induction false} KeysSuffice(names: set<bytes>, p: Place, s: bytes, r: bytes)
    requires Run(ANY, p, s) == Some(r) && Keys(s, |r|) <= names
    ensures Run(Some(names), p, s) == Some(r)
    decreases |s|
  {
    hide Next, CString;
    if p.open != [] {
      var l := Next(s);
      var q := Step(ANY, p, l).value;
      if q.at == Colon { KeyThenColon(q, l.rest); }
      assert |l.rest| < |s| by { TokenMoves(s); }
      assert Step(Some(names), p, l) == Some(q);
      KeysSuffice(names, q, l.rest, r);
    }
  }

  lemma {:induction false} KeyThenColon(q: Place, s: bytes)
    requires q.open != [] && q.at == Colon && Run(ANY, q, s).Some?
    ensures Next(s).kind == Punct(COLON)
  {
    hide Next;
  }

  // ----- Inside -----

  /** Behind a bracket's opener or a value, with at least one bracket open whose closer is the last token before `r`. */
  ghost predicate Inside(names: Names, u: bytes, r: bytes) {
    exists p: Place :: (p.at == First || p.at == Behind) && p.open != [] && Run(names, p, u) == Some(r)
  }

  lemma {:induction false} InsideIsBefore(names: Names, u: bytes, r: bytes)
    requires Inside(names, u, r)
    ensures |u| > |r|
  {
  }

  /** Either the end itself or a place inside. */
  ghost predicate Lands(names: Names, u: bytes, r: bytes) {
    u == r || Inside(names, u, r)
  }

  lemma {:induction false} LandsOutside(names: Names, u: bytes, t: bytes, r: bytes, b: seq<Frame>)
    requires Lands(names, u, t) && b != [] && Run(names, Place(Behind, b), t) == Some(r)
    ensures Inside(names, u, r)
  {
    if u == t {
      assert Run(names, Place(Behind, b), u) == Some(r);
    } else {
      var p: Place :| (p.at == First || p.at == Behind) && p.open != [] && Run(names, p, u) == Some(t);
      RunSplits(names, p.at, p.open, b, u);
      assert Run(names, Place(p.at, p.open + b), u) == Some(r);
    }
  }
}
