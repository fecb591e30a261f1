/**
 JSON texts as sections 2 to 7 of RFC 8259 write them, as trees, independent of the tokenizer; escaped
 surrogates come in pairs. Each of them is a value to the tokenizer, and to both skippers.
 */
module JsonGrammar {
  import opened Bytes
  import opened JsonString
  import opened JsonLex
  import opened JsonSkip
  import opened JsonTag
  import Decimal
  import Utf8

  // ----- Texts -----

  /** An octet as it is, a two-character escape, `\u` with four digits, or two of these for a pair. */
  datatype Piece = Raw(b: byte) | Short(c: byte) | Unit(h: bytes) | Pair(high: bytes, low: bytes)

  datatype Exponent = Exponent(mark: byte, sign: bytes, digits: bytes)
  datatype Numeral = Numeral(minus: bool, whole: bytes, fraction: Option<bytes>, exponent: Option<Exponent>)

  /** White space is part of the tree wherever it may stand. */
  datatype Json =
    | Literal(word: bytes)
    | Num(n: Numeral)
    | Str(pieces: seq<Piece>)
    | List(gap: bytes, elems: seq<Element>)
    | Dict(gap: bytes, members: seq<Entry>)
  datatype Element = Element(before: bytes, v: Json, after: bytes)
  datatype Entry = Entry(before: bytes, key: seq<Piece>, colon: bytes, gap: bytes, v: Json, after: bytes)

  predicate IsGap(s: bytes) {
    forall b :: b in s ==> b in {32, 9, 10, 13}
  }

  predicate AllDigits(s: bytes) {
    s != [] && forall i :: 0 <= i < |s| ==> IsDigit(s[i])
  }

  predicate WellFormedPiece(p: Piece) {
    match p
    case Raw(b) => b >= 32 && b != QUOTE && b != BACKSLASH
    case Short(c) => Unescaped(c) != -1
    case Unit(h) => HexDigits(h) && !HighSurrogate(Hex4(h)) && !LowSurrogate(Hex4(h))
    case Pair(high, low) => HexDigits(high) && HexDigits(low) && HighSurrogate(Hex4(high)) && LowSurrogate(Hex4(low))
  }

  predicate WellFormedNumeral(n: Numeral) {
    && AllDigits(n.whole) && (|n.whole| > 1 ==> n.whole[0] != 48)
    && (n.fraction.Some? ==> AllDigits(n.fraction.value))
    && (n.exponent.Some? ==>
          && n.exponent.value.mark in {101, 69} && n.exponent.value.sign in {[], [PLUS], [MINUS]}
          && AllDigits(n.exponent.value.digits))
  }

  predicate WellFormed(v: Json) {
    match v
    case Literal(word) => word in {TRUE, FALSE, NULL}
    case Num(n) => WellFormedNumeral(n)
    case Str(pieces) => forall p :: p in pieces ==> WellFormedPiece(p)
    case List(gap, elems) => IsGap(gap) && forall e :: e in elems ==> IsGap(e.before) && WellFormed(e.v) && IsGap(e.after)
    case Dict(gap, members) =>
      && IsGap(gap)
      && forall m :: m in members ==>
           && IsGap(m.before) && (forall p :: p in m.key ==> WellFormedPiece(p)) && IsGap(m.colon) && IsGap(m.gap)
           && WellFormed(m.v) && IsGap(m.after)
  }

  // ----- How they are written -----

  function PieceBytes(p: Piece): bytes {
    match p
    case Raw(b) => [b]
    case Short(c) => [BACKSLASH, c]
    case Unit(h) => [BACKSLASH, LOWER_U] + h
    case Pair(high, low) => [BACKSLASH, LOWER_U] + high + [BACKSLASH, LOWER_U] + low
  }

  function StringBytes(ps: seq<Piece>): bytes {
    if ps == [] then [] else PieceBytes(ps[0]) + StringBytes(ps[1..])
  }

  function Quoted(ps: seq<Piece>): bytes {
    [QUOTE] + StringBytes(ps) + [QUOTE]
  }

  function NumeralBytes(n: Numeral): bytes {
    (if n.minus then [MINUS] else []) + n.whole + FractionBytes(n.fraction) + ExponentBytes(n.exponent)
  }

  function FractionBytes(f: Option<bytes>): bytes {
    if f.None? then [] else [DOT] + f.value
  }

  function ExponentBytes(e: Option<Exponent>): bytes {
    if e.None? then [] else [e.value.mark] + e.value.sign + e.value.digits
  }

  function Written(v: Json): bytes
    decreases v, 0
  {
    match v
    case Literal(word) => word
    case Num(n) => NumeralBytes(n)
    case Str(pieces) => Quoted(pieces)
    case List(gap, elems) => [OPEN_BRACKET] + if elems == [] then gap + [CLOSE_BRACKET] else WrittenElements(elems)
    case Dict(gap, members) => [OPEN_BRACE] + if members == [] then gap + [CLOSE_BRACE] else WrittenMembers(members)
  }

  function WrittenElements(es: seq<Element>): bytes
    requires es != []
    decreases es, 1
  {
    es[0].before + Written(es[0].v) + es[0].after + if |es| == 1 then [CLOSE_BRACKET] else [COMMA] + WrittenElements(es[1..])
  }

  function WrittenMembers(ms: seq<Entry>): bytes
    requires ms != []
    decreases ms, 1
  {
    var m := ms[0];
    m.before + Quoted(m.key) + m.colon + [COLON] + m.gap + Written(m.v) + m.after
    + if |ms| == 1 then [CLOSE_BRACE] else [COMMA] + WrittenMembers(ms[1..])
  }

  // ----- Strings -----

  /** The octets a string stands for. */
  function Meaning(ps: seq<Piece>): bytes
    requires forall p :: p in ps ==> WellFormedPiece(p)
  {
    if ps == [] then [] else PieceMeaning(ps[0]) + Meaning(ps[1..])
  }

  function PieceMeaning(p: Piece): bytes
    requires WellFormedPiece(p)
  {
    match p
    case Raw(b) => [b]
    case Short(c) => [Unescaped(c)]
    case Unit(h) => Utf8.Encode(Hex4(h))
    case Pair(high, low) => Utf8.Encode(Paired(Hex4(high), Hex4(low)))
  }

  lemma {:induction false} PieceReads(p: Piece, s: bytes, moved: bytes) returns (moved': bytes)
    requires WellFormedPiece(p) && s != []
    ensures StringBody(PieceBytes(p) + s, moved) == Prepend(PieceMeaning(p), StringBody(s, moved'))
  {
    hide Hex4, HexDigits, Utf8.Encode, DecodeEscape;
    var t := PieceBytes(p) + s;
    if p.Raw? || p.Short? {
      moved' := moved;
      assert t[|PieceBytes(p)|..] == s;
    } else {
      moved' := s;
      EscapeReads(p, s);
      EscapedBody(t, moved);
    }
  }

  /** An escape in a string's body, from its backslash on. */
  lemma {:induction false} EscapedBody(t: bytes, moved: bytes)
    requires |t| > 1 && t[0] == BACKSLASH && t[1] == LOWER_U && DecodeEscape(t[1..]).Good?
    ensures var d := DecodeEscape(t[1..]); StringBody(t, moved) == Prepend(d.text, StringBody(d.rest, d.rest))
  {
    hide DecodeEscape;
  }

  lemma {:induction false} EscapeReads(p: Piece, s: bytes)
    requires WellFormedPiece(p) && s != [] && (p.Unit? || p.Pair?)
    ensures var t := PieceBytes(p) + s;
            |t| > 1 && t[0] == BACKSLASH && t[1] == LOWER_U && DecodeEscape(t[1..]) == Good(PieceMeaning(p), s)
  {
    hide Hex4, HexDigits, Utf8.Encode, DecodeEscape;
    var t := PieceBytes(p) + s;
    if p.Unit? {
      FourDigits(p.h);
      assert t[1..] == [LOWER_U] + p.h + s;
      EscapeOfUnit(p.h, s);
    } else {
      FourDigits(p.high);
      FourDigits(p.low);
      assert t[1..] == [LOWER_U] + p.high + [BACKSLASH, LOWER_U] + p.low + s;
      EscapeOfPair(p.high, p.low, s);
    }
  }

  lemma {:induction false} FourDigits(h: bytes)
    requires HexDigits(h)
    ensures |h| == 4
  {
  }

  lemma {:induction false} BodyReads(ps: seq<Piece>, rest: bytes, moved: bytes)
    requires forall p :: p in ps ==> WellFormedPiece(p)
    ensures StringBody(StringBytes(ps) + ([QUOTE] + rest), moved) == Good(Meaning(ps), rest)
    decreases |ps|
  {
    hide StringBody, PieceBytes, PieceMeaning, WellFormedPiece;
    var closing := [QUOTE] + rest;
    if ps == [] {
      assert [] + closing == closing && closing[1..] == rest;
      BodyEnds(closing, moved);
    } else {
      var s := StringBytes(ps[1..]) + closing;
      assert StringBytes(ps) + closing == PieceBytes(ps[0]) + s;
      var moved' := PieceReads(ps[0], s, moved);
      BodyReads(ps[1..], rest, moved');
    }
  }

  lemma {:induction false} BodyEnds(s: bytes, moved: bytes)
    requires s != [] && s[0] == QUOTE
    ensures StringBody(s, moved) == Good([], s[1..])
  {
  }

  // ----- Tokens -----

  lemma {:induction false} GapSkipped(gap: bytes, s: bytes)
    requires IsGap(gap)
    ensures SkipGap(gap + s) == SkipGap(s)
    decreases |gap|
  {
    if gap == [] {
      assert [] + s == s;
    } else {
      assert gap[0] in gap && forall b :: b in gap[1..] ==> b in gap;
      assert (gap + s)[1..] == gap[1..] + s;
      GapSkipped(gap[1..], s);
    }
  }

  lemma {:induction false} NextOverGap(gap: bytes, s: bytes)
    requires IsGap(gap)
    ensures Next(gap + s) == Next(s)
  {
    GapSkipped(gap, s);
  }

  lemma {:induction false} QuotedIsToken(ps: seq<Piece>, rest: bytes)
    requires forall p :: p in ps ==> WellFormedPiece(p)
    ensures Next(Quoted(ps) + rest) == Lexeme(String, Meaning(ps), rest)
  {
    hide StringBody, StringBytes, WellFormedPiece, Meaning;
    var s := Quoted(ps) + rest;
    assert SkipGap(s) == s;
    assert s[1..] == StringBytes(ps) + ([QUOTE] + rest);
    BodyReads(ps, rest, s);
  }

  lemma {:induction false} PunctIsToken(c: byte, rest: bytes)
    requires IsPunct(c)
    ensures Next([c] + rest) == Lexeme(Punct(c), [], rest)
  {
    var s := [c] + rest;
    assert SkipGap(s) == s && s[1..] == rest;
  }

  /** What may follow a number or a word. */
  predicate Delimited(s: bytes) {
    s == [] || s[0] in {32, 9, 10, 13, COMMA, CLOSE_BRACKET, CLOSE_BRACE}
  }

  lemma {:induction false} WordIsToken(word: bytes, rest: bytes)
    requires word in {TRUE, FALSE, NULL} && Delimited(rest)
    ensures HasText(Next(word + rest).kind) && Next(word + rest).rest == rest
  {
    hide SkipGap, StartsNumber, IsPunct;
    var s := word + rest;
    NoGap(s);
    assert word <= s && s[|word|..] == rest && s[0] == word[0];
  }

  lemma {:induction false} NoGap(s: bytes)
    requires s != [] && IsAlpha(s[0])
    ensures SkipGap(s) == s && !StartsNumber(s) && !IsPunct(s[0]) && s[0] != QUOTE
  {
  }

  lemma {:induction false} NumeralIsToken(n: Numeral, rest: bytes)
    requires WellFormedNumeral(n) && Delimited(rest)
    ensures HasText(Next(NumeralBytes(n) + rest).kind) && Next(NumeralBytes(n) + rest).rest == rest
  {
    hide DigitsEnd, WholeEnd, FractionEnd, ExponentEnd, NumeralBytes, FractionBytes, ExponentBytes, AllDigits, IsDigit, Delimited, Next;
    var s := NumeralBytes(n) + rest;
    var i := if n.minus then 1 else 0;
    var w := i + |n.whole|;
    var f := w + |FractionBytes(n.fraction)|;
    var e := f + |ExponentBytes(n.exponent)|;
    Parts(n, rest);
    Boundaries(n.fraction, n.exponent, s, w, rest);
    WholePart(n, s, i, w);
    FractionPart(n.fraction, s, w, f);
    ExponentPart(n.exponent, s, f, e);
    NumberIsToken(s, w, f, e);
  }

  lemma {:induction false} NumberIsToken(s: bytes, w: nat, f: nat, e: nat)
    requires StartsNumber(s) && WholeEnd(s) == w && FractionEnd(s, w) == f && ExponentEnd(s, f) == e
    ensures HasText(Next(s).kind) && Next(s).rest == s[e..]
  {
    hide DigitsEnd, WholeEnd, FractionEnd, ExponentEnd;
    assert SkipGap(s) == s;
  }

  lemma {:induction false} Parts(n: Numeral, rest: bytes)
    requires AllDigits(n.whole)
    ensures var s := NumeralBytes(n) + rest;
            var i := if n.minus then 1 else 0;
            var w := i + |n.whole|;
            var f := w + |FractionBytes(n.fraction)|;
            var e := f + |ExponentBytes(n.exponent)|;
            && e <= |s| && i < w && s[i..w] == n.whole && s[w..f] == FractionBytes(n.fraction) && s[f..e] == ExponentBytes(n.exponent)
            && s[e..] == rest && s[w..] == FractionBytes(n.fraction) + ExponentBytes(n.exponent) + rest && (n.minus ==> s[0] == MINUS)
  {
    hide FractionBytes, ExponentBytes;
  }

  /** The parts of a number do not run into one another. */
  lemma {:induction false} Boundaries(x: Option<bytes>, y: Option<Exponent>, s: bytes, w: nat, rest: bytes)
    requires w <= |s| && s[w..] == FractionBytes(x) + ExponentBytes(y) + rest && Delimited(rest)
    requires y.Some? ==> y.value.mark in {101, 69}
    ensures w < |s| ==> !IsDigit(s[w])
    ensures var f := w + |FractionBytes(x)|; f <= |s| && (f < |s| ==> !IsDigit(s[f]) && s[f] != DOT)
    ensures var e := w + |FractionBytes(x)| + |ExponentBytes(y)|;
            e <= |s| && (e < |s| ==> !IsDigit(s[e]) && s[e] != 101 && s[e] != 69)
  {
    var t := s[w..];
    var f := |FractionBytes(x)|;
    var e := f + |ExponentBytes(y)|;
    assert |t| == e + |rest|;
    assert w < |s| ==> s[w] == t[0];
    assert w + f < |s| ==> s[w + f] == t[f];
    assert w + e < |s| ==> s[w + e] == t[e] == rest[0];
  }

  lemma {:induction false} RunOfDigits(s: bytes, i: nat, j: nat)
    requires i < j <= |s| && AllDigits(s[i..j]) && (j < |s| ==> !IsDigit(s[j]))
    ensures DigitsEnd(s, i) == j
  {
    hide DigitsEnd, IsDigit;
    forall k | i <= k < j ensures IsDigit(s[k]) { assert s[k] == s[i..j][k - i]; }
    Decimal.RunEndsAt(s, i, j);
  }

  lemma {:induction false} WholePart(n: Numeral, s: bytes, i: nat, w: nat)
    requires WellFormedNumeral(n) && i == (if n.minus then 1 else 0) && i < w <= |s| && s[i..w] == n.whole
    requires (n.minus ==> s[0] == MINUS) && (w < |s| ==> !IsDigit(s[w]))
    ensures StartsNumber(s) && WholeEnd(s) == w
  {
    hide DigitsEnd;
    assert s[i] == n.whole[0] && IsDigit(s[i]);
    if n.minus {
      RunOfDigits(s, 1, w);
    } else if w > 1 {
      assert s[1..w] == n.whole[1..];
      RunOfDigits(s, 1, w);
    } else {
      Decimal.RunEndsAt(s, 1, 1);
    }
  }

  lemma {:induction false} FractionPart(f: Option<bytes>, s: bytes, w: nat, e: nat)
    requires w <= e <= |s| && s[w..e] == FractionBytes(f) && (f.Some? ==> AllDigits(f.value))
    requires e < |s| ==> !IsDigit(s[e]) && s[e] != DOT
    ensures FractionEnd(s, w) == e
  {
    hide DigitsEnd;
    if f.Some? {
      assert s[w] == s[w..e][0] == DOT && s[w + 1..e] == f.value;
      RunOfDigits(s, w + 1, e);
    }
  }

  lemma {:induction false} ExponentPart(x: Option<Exponent>, s: bytes, f: nat, e: nat)
    requires f <= e <= |s| && s[f..e] == ExponentBytes(x)
    requires x.Some? ==> x.value.mark in {101, 69} && x.value.sign in {[], [PLUS], [MINUS]} && AllDigits(x.value.digits)
    requires e < |s| ==> !IsDigit(s[e]) && s[e] != 101 && s[e] != 69
    ensures ExponentEnd(s, f) == e
  {
    hide DigitsEnd;
    if x.Some? {
      var k := f + 1 + |x.value.sign|;
      assert s[f] == s[f..e][0] == x.value.mark;
      assert s[k..e] == x.value.digits;
      assert s[k] == x.value.digits[0];
      if x.value.sign != [] { assert s[f + 1] == s[f..e][1] == x.value.sign[0]; }
      RunOfDigits(s, k, e);
    }
  }

  // ----- Values -----

  /** Every well-formed text, with white space before it and something that can follow it behind, is one value. */
  lemma {:induction false} TextIsValue(gap: bytes, v: Json, rest: bytes)
    requires IsGap(gap) && WellFormed(v) && Delimited(rest)
    ensures Value(gap + Written(v) + rest) == Some(rest)
    decreases v, 2
  {
    hide Next, Written, WellFormed, Elements, Members;
    BareTextIsValue(v, rest);
    assert gap + Written(v) + rest == gap + (Written(v) + rest);
    NextOverGap(gap, Written(v) + rest);
    SameNextSameValue(gap + (Written(v) + rest), Written(v) + rest);
  }

  lemma {:induction false} SameNextSameValue(a: bytes, b: bytes)
    requires Next(a) == Next(b)
    ensures Value(a) == Value(b)
  {
    hide Next, Elements, Members;
  }

  lemma {:induction false} BareTextIsValue(v: Json, rest: bytes)
    requires WellFormed(v) && Delimited(rest)
    ensures Value(Written(v) + rest) == Some(rest)
    decreases v, 1
  {
    hide Next, Elements, Members, WrittenElements, WrittenMembers, WellFormedPiece, NumeralBytes, WellFormedNumeral,
      Quoted, TRUE, FALSE, NULL;
    match v
    case Literal(word) => WordIsToken(word, rest);
    case Num(n) => NumeralIsToken(n, rest);
    case Str(pieces) => QuotedIsToken(pieces, rest);
    case List(gap, elems) =>
      if elems == [] {
        assert Written(v) + rest == [OPEN_BRACKET] + (gap + ([CLOSE_BRACKET] + rest));
        PunctIsToken(OPEN_BRACKET, gap + ([CLOSE_BRACKET] + rest));
        NextOverGap(gap, [CLOSE_BRACKET] + rest);
        PunctIsToken(CLOSE_BRACKET, rest);
      } else {
        assert Written(v) + rest == [OPEN_BRACKET] + (WrittenElements(elems) + rest);
        PunctIsToken(OPEN_BRACKET, WrittenElements(elems) + rest);
        ElementsAreElements(elems, rest);
      }
    case Dict(gap, members) =>
      if members == [] {
        assert Written(v) + rest == [OPEN_BRACE] + (gap + ([CLOSE_BRACE] + rest));
        PunctIsToken(OPEN_BRACE, gap + ([CLOSE_BRACE] + rest));
        NextOverGap(gap, [CLOSE_BRACE] + rest);
        PunctIsToken(CLOSE_BRACE, rest);
      } else {
        assert Written(v) + rest == [OPEN_BRACE] + (WrittenMembers(members) + rest);
        PunctIsToken(OPEN_BRACE, WrittenMembers(members) + rest);
        MembersAreMembers(members, rest);
      }
  }

  predicate ElementsFit(es: seq<Element>) {
    forall e :: e in es ==> IsGap(e.before) && WellFormed(e.v) && IsGap(e.after)
  }

  lemma {:induction false} GapDelimits(gap: bytes, c: byte, rest: bytes)
    requires IsGap(gap) && c in {COMMA, CLOSE_BRACKET, CLOSE_BRACE}
    ensures Delimited(gap + ([c] + rest)) && Next(gap + ([c] + rest)) == Lexeme(Punct(c), [], rest)
  {
    hide Next;
    NextOverGap(gap, [c] + rest);
    PunctIsToken(c, rest);
    if gap != [] { assert gap[0] in gap; }
  }

  lemma {:induction false} ElementsAreElements(es: seq<Element>, rest: bytes)
    requires es != [] && ElementsFit(es)
    ensures Elements(WrittenElements(es) + rest) == Some(rest)
    ensures Next(WrittenElements(es) + rest).kind != Punct(CLOSE_BRACKET)
    decreases es, 3
  {
    hide Next, Value, Written, WellFormed, IsGap, Delimited;
    var e := es[0];
    var c := if |es| == 1 then CLOSE_BRACKET else COMMA;
    var tail := if |es| == 1 then rest else WrittenElements(es[1..]) + rest;
    var t := e.after + ([c] + tail);
    assert WrittenElements(es) + rest == e.before + Written(e.v) + t;
    GapDelimits(e.after, c, tail);
    TextIsValue(e.before, e.v, t);
    ValueStartsNoCloser(e.before + Written(e.v) + t);
    if |es| > 1 { ElementsAreElements(es[1..], rest); }
  }

  lemma {:induction false} ValueStartsNoCloser(s: bytes)
    requires Value(s).Some?
    ensures Next(s).kind != Punct(CLOSE_BRACKET) && Next(s).kind != Punct(CLOSE_BRACE)
  {
    hide Next, Elements, Members;
  }

  predicate MembersFit(ms: seq<Entry>) {
    forall m :: m in ms ==>
      && IsGap(m.before) && (forall p :: p in m.key ==> WellFormedPiece(p)) && IsGap(m.colon) && IsGap(m.gap)
      && WellFormed(m.v) && IsGap(m.after)
  }

  /** What follows the first member's value but for the gap. */
  function Behind(ms: seq<Entry>, rest: bytes): bytes
    requires ms != []
  {
    if |ms| == 1 then rest else WrittenMembers(ms[1..]) + rest
  }

  /** The first member's key, its value, and the comma or closing brace behind it. */
  lemma {:induction false} FirstMemberReads(ms: seq<Entry>, rest: bytes) returns (v: bytes, t: bytes)
    requires ms != [] && MembersFit(ms)
    ensures var s := WrittenMembers(ms) + rest;
            && Next(s).kind == String && Next(s).text == Meaning(ms[0].key) && MemberValue(s) == Some(v) && Value(v) == Some(t)
            && Next(t) == Lexeme(Punct(if |ms| == 1 then CLOSE_BRACE else COMMA), [], Behind(ms, rest))
    decreases ms, 3
  {
    hide Next, Value, Written, WrittenMembers, WellFormed, IsGap, Delimited, Quoted, WellFormedPiece, MemberValue, Meaning;
    var m := ms[0];
    var c := if |ms| == 1 then CLOSE_BRACE else COMMA;
    t := m.after + ([c] + Behind(ms, rest));
    v := m.gap + Written(m.v) + t;
    FirstMemberFirst(ms, rest);
    KeyAndColon(m.before, m.key, m.colon, v);
    GapDelimits(m.after, c, Behind(ms, rest));
    TextIsValue(m.gap, m.v, t);
  }

  lemma {:induction false} MembersAreMembers(ms: seq<Entry>, rest: bytes)
    requires ms != [] && MembersFit(ms)
    ensures Members(WrittenMembers(ms) + rest) == Some(rest)
    ensures Next(WrittenMembers(ms) + rest).kind != Punct(CLOSE_BRACE)
    decreases ms, 4
  {
    hide Next, Value, WrittenMembers, MembersFit, MemberValue;
    var v, t := FirstMemberReads(ms, rest);
    if |ms| > 1 {
      FitTail(ms);
      MembersAreMembers(ms[1..], rest);
    }
  }

  lemma {:induction false} FitTail(ms: seq<Entry>)
    requires ms != [] && MembersFit(ms)
    ensures MembersFit(ms[1..])
  {
    hide IsGap, WellFormed, WellFormedPiece;
  }

  /** The members found in an object are those written, in order, under the keys they mean. */
  lemma {:induction false} KeysAreMeant(ms: seq<Entry>, rest: bytes)
    requires ms != [] && MembersFit(ms)
    ensures Members(WrittenMembers(ms) + rest).Some?
    ensures var list := MemberList(WrittenMembers(ms) + rest);
            |list| == |ms| && forall i :: 0 <= i < |ms| ==> (forall p :: p in ms[i].key ==> WellFormedPiece(p)) && list[i].key == Meaning(ms[i].key)
    decreases |ms|
  {
    hide Next, Value, WrittenMembers, MemberValue, WellFormedPiece, Meaning;
    var s := WrittenMembers(ms) + rest;
    MembersAreMembers(ms, rest);
    var v, t := FirstMemberReads(ms, rest);
    var list := MemberList(s);
    assert list[0] == Member(Meaning(ms[0].key), v);
    if |ms| > 1 {
      FitTail(ms);
      KeysAreMeant(ms[1..], rest);
      assert list[1..] == MemberList(Behind(ms, rest));
      forall i | 0 < i < |ms| ensures list[i].key == Meaning(ms[i].key) {
        assert list[i] == list[1..][i - 1] && ms[i] == ms[1..][i - 1];
      }
    } else {
      assert list == [list[0]];
    }
  }

  lemma {:induction false} FirstMemberFirst(ms: seq<Entry>, rest: bytes)
    requires ms != []
    ensures var m := ms[0];
            var c := if |ms| == 1 then CLOSE_BRACE else COMMA;
            var v := m.gap + Written(m.v) + (m.after + ([c] + Behind(ms, rest)));
            WrittenMembers(ms) + rest == m.before + (Quoted(m.key) + (m.colon + ([COLON] + v)))
  {
    hide Written, Quoted;
  }

  /** A key is the string it means, and its value follows the colon. */
  lemma {:induction false} KeyAndColon(before: bytes, key: seq<Piece>, colon: bytes, v: bytes)
    requires IsGap(before) && (forall p :: p in key ==> WellFormedPiece(p)) && IsGap(colon)
    ensures var s := before + (Quoted(key) + (colon + ([COLON] + v)));
            MemberValue(s) == Some(v) && Next(s).kind == String && Next(s).text == Meaning(key)
  {
    hide Next, IsGap, Quoted, WellFormedPiece, Meaning;
    NextOverGap(before, Quoted(key) + (colon + ([COLON] + v)));
    QuotedIsToken(key, colon + ([COLON] + v));
    NextOverGap(colon, [COLON] + v);
    PunctIsToken(COLON, v);
  }

  /** So both skippers pass over every JSON text exactly. */
  lemma {:induction false} TextIsSkipped(gap: bytes, v: Json, rest: bytes)
    requires IsGap(gap) && WellFormed(v) && Delimited(rest)
    ensures Count(gap + Written(v) + rest, 0, 0) == Skipped(rest) && SkipByDepth(gap + Written(v) + rest) == Skipped(rest)
  {
    hide Written, WellFormed, Value, Count, SkipByDepth;
    TextIsValue(gap, v, rest);
    CountersFollowGrammar(gap + Written(v) + rest);
    DepthFollowsGrammar(gap + Written(v) + rest);
  }
}
