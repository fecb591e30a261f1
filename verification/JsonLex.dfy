/** The JSON tokenizer: gaps, strings, numbers, keywords. */
module JsonLex {
  import opened Bytes
  import opened Sstr
  import opened Runtime
  import opened JsonString

  /** The kinds the parser tells apart; `Punct` is one of `[ ] { } : ,`. */
  datatype Kind = Eof | Punct(c: byte) | String | Int | Float | True | False | Null | Error

  /** A token, its text, and what follows it. */
  datatype Lexeme = Lexeme(kind: Kind, text: bytes, rest: bytes)

  const COMMA: byte := 44
  const COLON: byte := 58
  const OPEN_BRACKET: byte := 91
  const CLOSE_BRACKET: byte := 93
  const OPEN_BRACE: byte := 123
  const CLOSE_BRACE: byte := 125
  const SLASH: byte := 47
  const STAR: byte := 42
  const NEWLINE: byte := 10
  const MINUS: byte := 45
  const PLUS: byte := 43
  const DOT: byte := 46

  predicate IsSpace(c: byte) {
    9 <= c <= 13 || c == 32
  }

  predicate IsDigit(c: byte) {
    48 <= c <= 57
  }

  predicate IsAlpha(c: byte) {
    65 <= c <= 90 || 97 <= c <= 122
  }

  predicate IsPunct(c: byte) {
    c == COMMA || c == COLON || c == OPEN_BRACKET || c == CLOSE_BRACKET || c == OPEN_BRACE || c == CLOSE_BRACE
  }

  // ----- Gaps -----

  function AfterLine(s: bytes): (r: bytes)
    ensures |r| <= |s|
  {
    if s == [] || s[0] == NEWLINE then s else AfterLine(s[1..])
  }

  /** The block comment's loop stops at the first `*`, or before the first `/` but the leading one. */
  function AfterBlock(s: bytes): (r: bytes)
    ensures |r| <= |s|
  {
    if |s| >= 2 && s[0] != STAR && s[1] != SLASH then AfterBlock(s[1..])
    else if |s| >= 2 then s[2..]
    else []
  }

  predicate AtComment(s: bytes, second: byte) {
    |s| >= 2 && s[0] == SLASH && s[1] == second
  }

  /** White space and comments skipped. */
  function SkipGap(s: bytes): (r: bytes)
    ensures |r| <= |s| && (|r| == |s| ==> r == s)
    decreases |s|
  {
    if s != [] && IsSpace(s[0]) then SkipGap(s[1..])
    else if AtComment(s, SLASH) then SkipGap(AfterLine(s[2..]))
    else if AtComment(s, STAR) then SkipGap(AfterBlock(s[2..]))
    else s
  }

  // ----- Tokens -----

  /** How many octets of `s` from `i` on are digits. */
  function DigitsEnd(s: bytes, i: nat): (j: nat)
    requires i <= |s|
    ensures i <= j <= |s| && (forall k :: i <= k < j ==> IsDigit(s[k])) && (j < |s| ==> !IsDigit(s[j]))
    decreases |s| - i
  {
    if i < |s| && IsDigit(s[i]) then DigitsEnd(s, i + 1) else i
  }

  predicate StartsNumber(s: bytes) {
    s != [] && (IsDigit(s[0]) || s[0] == MINUS || s[0] == DOT)
  }

  /** The end of the whole part, of the fraction, and of the exponent. */
  function WholeEnd(s: bytes): (n: nat)
    requires StartsNumber(s)
    ensures n <= |s|
  {
    if s[0] == DOT then 0 else DigitsEnd(s, 1)
  }

  function FractionEnd(s: bytes, n: nat): (m: nat)
    requires n <= |s|
    ensures n <= m <= |s|
  {
    if n < |s| && s[n] == DOT then DigitsEnd(s, n + 1) else n
  }

  function ExponentEnd(s: bytes, n: nat): (m: nat)
    requires n <= |s|
    ensures n <= m <= |s|
  {
    if n < |s| && (s[n] == 101 || s[n] == 69) then
      DigitsEnd(s, if n + 1 < |s| && (s[n + 1] == PLUS || s[n + 1] == MINUS) then n + 2 else n + 1)
    else n
  }

  function Number(s: bytes): (l: Lexeme)
    requires StartsNumber(s)
    ensures |l.rest| < |s|
  {
    var w := WholeEnd(s);
    var f := FractionEnd(s, w);
    var e := ExponentEnd(s, f);
    Lexeme(if e > w then Float else Int, s[..e], s[e..])
  }

  /** A keyword ends where no letter follows. */
  predicate Keyword(s: bytes, word: bytes) {
    word <= s && (|s| > |word| ==> !IsAlpha(s[|word|]))
  }

  const TRUE: bytes := [116, 114, 117, 101]
  const FALSE: bytes := [102, 97, 108, 115, 101]
  const NULL: bytes := [110, 117, 108, 108]

  function AfterLetters(s: bytes): (r: bytes)
    ensures |r| <= |s| && (|r| == |s| ==> r == s)
  {
    if s != [] && IsAlpha(s[0]) then AfterLetters(s[1..]) else s
  }

  function Token(s: bytes): (l: Lexeme)
    ensures |l.rest| <= |s| && (|l.rest| == |s| ==> l.rest == s)
    ensures l.kind != Eof && l.kind != Error ==> |l.rest| < |s|
  {
    if s == [] then Lexeme(Eof, [], [])
    else if s[0] == QUOTE then
      match ParseString(s)
      case Good(text, rest) => Lexeme(String, text, rest)
      case Bad(rest) => Lexeme(Error, [], rest)
    else if IsPunct(s[0]) then Lexeme(Punct(s[0]), [], s[1..])
    else if StartsNumber(s) then Number(s)
    else if Keyword(s, TRUE) then Lexeme(True, TRUE, s[4..])
    else if Keyword(s, FALSE) then Lexeme(False, FALSE, s[5..])
    else if Keyword(s, NULL) then Lexeme(Null, NULL, s[4..])
    else Lexeme(Error, [], AfterLetters(s))
  }

  /** Every token but the end and a bad one moves the cursor. */
  function Next(s: bytes): (l: Lexeme)
    ensures |l.rest| <= |s| && (|l.rest| == |s| ==> l.rest == s)
    ensures l.kind != Eof && l.kind != Error ==> |l.rest| < |s|
  {
    Token(SkipGap(s))
  }

  // ----- The reader -----

  method SkipSpaceComments(r: Reader)
    requires r.Valid()
    modifies r`pos
    ensures r.Valid() && r.Rest() == SkipGap(old(r.Rest()))
  {
    hide SkipGap, AfterLine, AfterBlock, IsSpace;
    var len := |r.data|;
    var i := r.pos;
    var skipped := true;
    while skipped
      invariant i == r.pos <= len && SkipGap(r.data[i..]) == SkipGap(old(r.Rest()))
      invariant !skipped ==> SkipGap(r.data[i..]) == r.data[i..]
      decreases len - i, skipped
    {
      var start := i;
      i := SpacesEnd(r.data, i);
      GapAt(r.data, i);
      if i + 1 < len && r.data[i] == SLASH && r.data[i + 1] == SLASH {
        i := LineEnd(r.data, i + 2);
        GapAt(r.data, i);
      }
      if i + 1 < len && r.data[i] == SLASH && r.data[i + 1] == STAR { i := BlockEnd(r.data, i + 2); }
      r.pos := i;
      skipped := i > start;
    }
  }

  /** A gap at a comment goes on behind it, and one at neither space nor comment is empty. */
  lemma {:induction false} GapAt(s: bytes, i: nat)
    requires i <= |s|
    ensures i + 1 < |s| && s[i] == SLASH && s[i + 1] == SLASH ==> SkipGap(s[i..]) == SkipGap(AfterLine(s[i + 2..]))
    ensures i + 1 < |s| && s[i] == SLASH && s[i + 1] == STAR ==> SkipGap(s[i..]) == SkipGap(AfterBlock(s[i + 2..]))
    ensures (i < |s| ==> !IsSpace(s[i])) && !(i + 1 < |s| && s[i] == SLASH && (s[i + 1] == SLASH || s[i + 1] == STAR)) ==>
              SkipGap(s[i..]) == s[i..]
  {
    hide AfterLine, AfterBlock;
    if i + 1 < |s| { assert s[i..][2..] == s[i + 2..]; }
  }

  method SpacesEnd(s: bytes, i: nat) returns (j: nat)
    requires i <= |s|
    ensures i <= j <= |s| && SkipGap(s[j..]) == SkipGap(s[i..])
    ensures j < |s| ==> !IsSpace(s[j])
  {
    j := i;
    while j < |s| && IsSpace(s[j])
      invariant i <= j <= |s| && SkipGap(s[j..]) == SkipGap(s[i..])
    {
      assert s[j..][1..] == s[j + 1..];
      j := j + 1;
    }
  }

  method LineEnd(s: bytes, i: nat) returns (j: nat)
    requires i <= |s|
    ensures i <= j <= |s| && s[j..] == AfterLine(s[i..])
  {
    j := i;
    while j < |s| && s[j] != NEWLINE
      invariant i <= j <= |s| && AfterLine(s[j..]) == AfterLine(s[i..])
    {
      assert s[j..][1..] == s[j + 1..];
      j := j + 1;
    }
  }

  /** An unterminated comment moves the original's offset past the end, which reads as the end. */
  method BlockEnd(s: bytes, i: nat) returns (j: nat)
    requires i <= |s|
    ensures i <= j <= |s| && s[j..] == AfterBlock(s[i..])
  {
    j := i;
    while j + 1 < |s| && s[j] != STAR && s[j + 1] != SLASH
      invariant i <= j <= |s| && AfterBlock(s[j..]) == AfterBlock(s[i..])
    {
      assert s[j..][1..] == s[j + 1..];
      j := j + 1;
    }
    if j + 2 <= |s| { assert s[j..][2..] == s[j + 2..]; }
    j := if j + 2 > |s| then |s| else j + 2;
  }

  method ScanDigits(s: bytes, i: nat) returns (j: nat)
    requires i <= |s|
    ensures j == DigitsEnd(s, i)
  {
    j := i;
    while j < |s| && IsDigit(s[j])
      invariant i <= j <= |s| && DigitsEnd(s, j) == DigitsEnd(s, i)
    {
      j := j + 1;
    }
  }

  method ScanFraction(s: bytes, i: nat) returns (j: nat)
    requires i <= |s|
    ensures j == FractionEnd(s, i)
  {
    hide DigitsEnd;
    j := i;
    if i < |s| && s[i] == DOT { j := ScanDigits(s, i + 1); }
  }

  method ScanExponent(s: bytes, i: nat) returns (j: nat)
    requires i <= |s|
    ensures j == ExponentEnd(s, i)
  {
    hide DigitsEnd;
    j := i;
    if j < |s| && (s[j] == 101 || s[j] == 69) {
      j := j + 1;
      if j < |s| && (s[j] == PLUS || s[j] == MINUS) { j := j + 1; }
      j := ScanDigits(s, j);
    }
  }

  method ScanNumber(s: bytes) returns (kind: Kind, n: nat)
    requires StartsNumber(s)
    ensures n <= |s| && Number(s) == Lexeme(kind, s[..n], s[n..])
  {
    hide DigitsEnd, IsDigit, FractionEnd, ExponentEnd;
    var i := 0;
    if s[0] != DOT { i := ScanDigits(s, 1); }
    var f := ScanFraction(s, i);
    n := ScanExponent(s, f);
    kind := if n > i then Float else Int;
  }

  method ScanLetters(s: bytes) returns (n: nat)
    ensures n <= |s| && s[n..] == AfterLetters(s)
  {
    n := 0;
    while n < |s| && IsAlpha(s[n])
      invariant n <= |s| && AfterLetters(s[n..]) == AfterLetters(s)
    {
      assert s[n..][1..] == s[n + 1..];
      n := n + 1;
    }
  }

  /** `kind` carries a text that `Next` promises; an error's text is a message, left out here. */
  predicate HasText(kind: Kind) {
    kind.String? || kind.Int? || kind.Float? || kind.True? || kind.False? || kind.Null?
  }

  method NextToken(r: Reader, txt: Buffer) returns (kind: Kind)
    requires r.Valid() && txt.Valid() && txt.HasBuffer() && r !in txt.Repr
    modifies r`pos, txt.Repr
    ensures r.Valid() && txt.Valid() && txt.HasBuffer() && fresh(txt.Repr - old(txt.Repr))
    ensures kind == Next(old(r.Rest())).kind && r.Rest() == Next(old(r.Rest())).rest
    ensures HasText(kind) ==> txt.Contents() == Next(old(r.Rest())).text
  {
    hide SkipGap, ParseString, Number, StartsNumber, Keyword, AfterLetters, IsPunct;
    txt.ClearFast();
    SkipSpaceComments(r);
    ghost var s := r.Rest();
    if r.pos >= |r.data| { return Eof; }
    var ch := r.data[r.pos];
    if ch == QUOTE {
      var ok := ParseStringToken(r, txt);
      return if ok then String else Error;
    }
    if IsPunct(ch) {
      r.pos := r.pos + 1;
      assert r.Rest() == s[1..];
      return Punct(ch);
    }
    kind := ScanWord(r, txt);
  }

  /** Numbers, keywords, and anything else. */
  method ScanWord(r: Reader, txt: Buffer) returns (kind: Kind)
    requires r.Valid() && txt.Valid() && txt.HasBuffer() && r !in txt.Repr && txt.Contents() == []
    requires r.Rest() != [] && r.Rest()[0] != QUOTE && !IsPunct(r.Rest()[0])
    modifies r`pos, txt.Repr
    ensures r.Valid() && txt.Valid() && txt.HasBuffer() && fresh(txt.Repr - old(txt.Repr))
    ensures kind == Token(old(r.Rest())).kind && r.Rest() == Token(old(r.Rest())).rest
    ensures HasText(kind) ==> txt.Contents() == Token(old(r.Rest())).text
  {
    hide ParseString, Number, StartsNumber, Keyword, AfterLetters, IsPunct;
    var s := r.data[r.pos..];
    if StartsNumber(s) {
      var n;
      kind, n := ScanNumber(s);
      Advance(r, txt, s, n, s[..n]);
    } else if Keyword(s, TRUE) {
      KeywordFits(s, TRUE);
      kind := True;
      Advance(r, txt, s, 4, TRUE);
    } else if Keyword(s, FALSE) {
      KeywordFits(s, FALSE);
      kind := False;
      Advance(r, txt, s, 5, FALSE);
    } else if Keyword(s, NULL) {
      KeywordFits(s, NULL);
      kind := Null;
      Advance(r, txt, s, 4, NULL);
    } else {
      var n := ScanLetters(s);
      kind := Error;
      Advance(r, txt, s, n, s[..n]);
    }
  }

  lemma {:induction false} KeywordFits(s: bytes, word: bytes)
    requires Keyword(s, word)
    ensures |word| <= |s|
  {
  }

  method Advance(r: Reader, txt: Buffer, s: bytes, n: nat, text: bytes)
    requires r.Valid() && txt.Valid() && r !in txt.Repr && r.Rest() == s && n <= |s| && txt.Contents() == []
    modifies r`pos, txt.Repr
    ensures r.Valid() && txt.Valid() && txt.HasBuffer() && fresh(txt.Repr - old(txt.Repr))
    ensures r.Rest() == s[n..] && txt.Contents() == text
  {
    r.pos := r.pos + n;
    txt.AppendOf(text);
    assert [] + text == text;
  }
}
