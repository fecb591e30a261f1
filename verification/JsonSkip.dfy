/** Skipping JSON values by counting brackets, and what that has to do with the grammar. */
module JsonSkip {
  import opened Bytes
  import opened Sstr
  import opened Runtime
  import opened JsonLex

  // ----- The grammar: section 2 of RFC 8259 over the tokenizer's tokens -----

  /** What follows the value `s` starts with, if it starts with one. */
  function Value(s: bytes): (r: Option<bytes>)
    ensures r.Some? ==> |r.value| < |s|
    decreases |s|, 0
  {
    var l := Next(s);
    if HasText(l.kind) then Some(l.rest)
    else if l.kind == Punct(OPEN_BRACKET) then
      if Next(l.rest).kind == Punct(CLOSE_BRACKET) then Some(Next(l.rest).rest) else Elements(l.rest)
    else if l.kind == Punct(OPEN_BRACE) then
      if Next(l.rest).kind == Punct(CLOSE_BRACE) then Some(Next(l.rest).rest) else Members(l.rest)
    else None
  }

  /** One or more values and the closing bracket. */
  function Elements(s: bytes): (r: Option<bytes>)
    ensures r.Some? ==> |r.value| < |s|
    decreases |s|, 1
  {
    match Value(s)
    case None => None
    case Some(t) =>
      var l := Next(t);
      if l.kind == Punct(COMMA) then Elements(l.rest)
      else if l.kind == Punct(CLOSE_BRACKET) then Some(l.rest)
      else None
  }

  /** The value of the member `s` starts with, behind its key and colon. */
  function MemberValue(s: bytes): (r: Option<bytes>)
    ensures r.Some? ==> |r.value| < |s|
  {
    var k := Next(s);
    if k.kind == String && Next(k.rest).kind == Punct(COLON) then Some(Next(k.rest).rest) else None
  }

  /** One or more members and the closing brace. */
  function Members(s: bytes): (r: Option<bytes>)
    ensures r.Some? ==> |r.value| < |s|
    decreases |s|, 1
  {
    match MemberValue(s)
    case None => None
    case Some(v) =>
      match Value(v)
      case None => None
      case Some(t) =>
        var l := Next(t);
        if l.kind == Punct(COMMA) then Members(l.rest)
        else if l.kind == Punct(CLOSE_BRACE) then Some(l.rest)
        else None
  }

  // ----- Two counters -----

  /** `Forever`: a bad token that moves neither the cursor nor a counter is met again and again. */
  datatype Outcome = Skipped(rest: bytes) | AtEnd | Forever

  /** What a token adds to the count of open braces and of open brackets. */
  function Brace(k: Kind): int {
    if k == Punct(OPEN_BRACE) then 1 else if k == Punct(CLOSE_BRACE) then -1 else 0
  }

  function Bracket(k: Kind): int {
    if k == Punct(OPEN_BRACKET) then 1 else if k == Punct(CLOSE_BRACKET) then -1 else 0
  }

  function Count(s: bytes, brace: int, bracket: int): (o: Outcome)
    ensures o.Skipped? ==> |o.rest| <= |s|
    decreases |s|
  {
    var l := Next(s);
    if l.kind == Eof then AtEnd
    else if brace + Brace(l.kind) == 0 && bracket + Bracket(l.kind) == 0 then Skipped(l.rest)
    else if l.rest == s then Forever
    else Count(l.rest, brace + Brace(l.kind), bracket + Bracket(l.kind))
  }

  /** A token, not the end, that leaves the cursor where it is. */
  predicate Stuck(s: bytes) {
    Next(s).kind != Eof && Next(s).rest == s
  }

  /** `Forever` is no shortcut: the loop is back where it was. */
  lemma {:induction false} BadTokenRepeats(s: bytes)
    requires Stuck(s)
    ensures Next(s).kind == Error && Brace(Next(s).kind) == 0 && Bracket(Next(s).kind) == 0
  {
  }

  /** Behind `rest`, with these counters, the loop stops or goes on. */
  function Onward(rest: bytes, brace: int, bracket: int): Outcome {
    if brace == 0 && bracket == 0 then Skipped(rest) else Count(rest, brace, bracket)
  }

  lemma {:induction false} CountStep(s: bytes, brace: int, bracket: int)
    requires Next(s).kind != Eof && Next(s).kind != Error
    ensures Count(s, brace, bracket) == Onward(Next(s).rest, brace + Brace(Next(s).kind), bracket + Bracket(Next(s).kind))
  {
  }

  /** The counters come back from a value as they went in. */
  lemma {:induction false} CountOverValue(s: bytes, brace: nat, bracket: nat)
    requires Value(s).Some?
    ensures Count(s, brace, bracket) == Onward(Value(s).value, brace, bracket)
    decreases |s|, 0
  {
    hide Next, Count, Onward, Elements, Members;
    var l := Next(s);
    CountStep(s, brace, bracket);
    if l.kind == Punct(OPEN_BRACKET) {
      OnwardInside(l.rest, brace, bracket + 1);
      if Next(l.rest).kind == Punct(CLOSE_BRACKET) {
        CountStep(l.rest, brace, bracket + 1);
      } else {
        CountOverElements(l.rest, brace, bracket);
      }
    } else if l.kind == Punct(OPEN_BRACE) {
      OnwardInside(l.rest, brace + 1, bracket);
      if Next(l.rest).kind == Punct(CLOSE_BRACE) {
        CountStep(l.rest, brace + 1, bracket);
      } else {
        CountOverMembers(l.rest, brace, bracket);
      }
    }
  }

  lemma {:induction false} OnwardInside(s: bytes, brace: nat, bracket: nat)
    requires brace + bracket > 0
    ensures Onward(s, brace, bracket) == Count(s, brace, bracket)
  {
  }

  lemma {:induction false} CountOverElements(s: bytes, brace: nat, bracket: nat)
    requires Elements(s).Some?
    ensures Count(s, brace, bracket + 1) == Onward(Elements(s).value, brace, bracket)
    decreases |s|, 1
  {
    hide Next, Count, Onward, Value;
    CountOverValue(s, brace, bracket + 1);
    var t := Value(s).value;
    OnwardInside(t, brace, bracket + 1);
    CountStep(t, brace, bracket + 1);
    if Next(t).kind == Punct(COMMA) {
      OnwardInside(Next(t).rest, brace, bracket + 1);
      CountOverElements(Next(t).rest, brace, bracket);
    }
  }

  lemma {:induction false} CountOverMembers(s: bytes, brace: nat, bracket: nat)
    requires Members(s).Some?
    ensures Count(s, brace + 1, bracket) == Onward(Members(s).value, brace, bracket)
    decreases |s|, 1
  {
    hide Next, Count, Onward, Value;
    var k := Next(s);
    CountStep(s, brace + 1, bracket);
    OnwardInside(k.rest, brace + 1, bracket);
    CountStep(k.rest, brace + 1, bracket);
    var v := MemberValue(s).value;
    OnwardInside(v, brace + 1, bracket);
    CountOverValue(v, brace + 1, bracket);
    var t := Value(v).value;
    OnwardInside(t, brace + 1, bracket);
    CountStep(t, brace + 1, bracket);
    if Next(t).kind == Punct(COMMA) {
      OnwardInside(Next(t).rest, brace + 1, bracket);
      CountOverMembers(Next(t).rest, brace, bracket);
    }
  }

  /** Started at a value, the loop with two counters stops right behind it. */
  lemma {:induction false} CountersFollowGrammar(s: bytes)
    requires Value(s).Some?
    ensures Count(s, 0, 0) == Skipped(Value(s).value)
  {
    CountOverValue(s, 0, 0);
  }

  /** Token by token, until both counters are zero. */
  method IgnoreValue(r: Reader, txt: Buffer) returns (o: Outcome)
    requires r.Valid() && txt.Valid() && txt.HasBuffer() && r !in txt.Repr
    modifies r`pos, txt.Repr
    ensures r.Valid() && txt.Valid() && txt.HasBuffer() && fresh(txt.Repr - old(txt.Repr))
    ensures o == Count(old(r.Rest()), 0, 0)
    ensures o.Skipped? ==> r.Rest() == o.rest
  {
    hide Next;
    var brace, bracket := 0, 0;
    while true
      invariant r.Valid() && txt.Valid() && txt.HasBuffer() && fresh(txt.Repr - old(txt.Repr)) && r !in txt.Repr
      invariant Count(r.Rest(), brace, bracket) == Count(old(r.Rest()), 0, 0)
      decreases |r.Rest()|
    {
      var before := r.pos;
      ghost var s := r.Rest();
      var tk := NextToken(r, txt);
      if tk == Eof { return AtEnd; }
      if tk == Punct(OPEN_BRACE) {
        brace := brace + 1;
      } else if tk == Punct(CLOSE_BRACE) {
        brace := brace - 1;
      } else if tk == Punct(OPEN_BRACKET) {
        bracket := bracket + 1;
      } else if tk == Punct(CLOSE_BRACKET) {
        bracket := bracket - 1;
      }
      if brace == 0 && bracket == 0 { return Skipped(r.data[r.pos..]); }
      if r.pos == before { return Forever; }
    }
  }

  // ----- One counter -----

  /** What closes an opening token. */
  function Closing(open: Kind): Kind {
    if open == Punct(OPEN_BRACE) then Punct(CLOSE_BRACE) else Punct(CLOSE_BRACKET)
  }

  predicate Opens(k: Kind) {
    k == Punct(OPEN_BRACE) || k == Punct(OPEN_BRACKET)
  }

  /** Only tokens of the kind that opened the value are counted. */
  function Deeper(open: Kind, k: Kind): int {
    if k == open then 1 else if k == Closing(open) then -1 else 0
  }

  function Depth(s: bytes, open: Kind, depth: nat): (o: Outcome)
    requires Opens(open)
    ensures o.Skipped? ==> |o.rest| <= |s|
    decreases |s|
  {
    if depth == 0 then Skipped(s)
    else
      var l := Next(s);
      if l.kind == Eof then AtEnd
      else if l.rest == s then Forever
      else Depth(l.rest, open, depth + Deeper(open, l.kind))
  }

  /** The skip emitted into a union's reader. */
  function SkipByDepth(s: bytes): (o: Outcome)
    ensures o.Skipped? ==> |o.rest| <= |s|
  {
    var l := Next(s);
    if Opens(l.kind) then Depth(l.rest, l.kind, 1) else Skipped(l.rest)
  }

  lemma {:induction false} DepthStep(s: bytes, open: Kind, depth: nat)
    requires Opens(open) && depth > 0 && Next(s).kind != Eof && Next(s).kind != Error
    ensures Depth(s, open, depth) == Depth(Next(s).rest, open, depth + Deeper(open, Next(s).kind))
  {
  }

  /** Other values inside leave the depth as it was. */
  lemma {:induction false} DepthOverValue(s: bytes, open: Kind, depth: nat)
    requires Opens(open) && depth > 0 && Value(s).Some?
    ensures Depth(s, open, depth) == Depth(Value(s).value, open, depth)
    decreases |s|, 0
  {
    hide Next, Depth, Elements, Members;
    var l := Next(s);
    DepthStep(s, open, depth);
    if Opens(l.kind) {
      var d := depth + Deeper(open, l.kind);
      if Next(l.rest).kind == Closing(l.kind) {
        DepthStep(l.rest, open, d);
      } else if l.kind == Punct(OPEN_BRACKET) {
        DepthOverElements(l.rest, open, d);
      } else {
        DepthOverMembers(l.rest, open, d);
      }
    }
  }

  lemma {:induction false} DepthOverElements(s: bytes, open: Kind, depth: nat)
    requires Opens(open) && depth > 0 && Elements(s).Some?
    ensures Depth(s, open, depth) == Depth(Elements(s).value, open, depth + Deeper(open, Punct(CLOSE_BRACKET)))
    decreases |s|, 1
  {
    hide Next, Depth, Value;
    DepthOverValue(s, open, depth);
    var t := Value(s).value;
    DepthStep(t, open, depth);
    if Next(t).kind == Punct(COMMA) { DepthOverElements(Next(t).rest, open, depth); }
  }

  lemma {:induction false} DepthOverMembers(s: bytes, open: Kind, depth: nat)
    requires Opens(open) && depth > 0 && Members(s).Some?
    ensures Depth(s, open, depth) == Depth(Members(s).value, open, depth + Deeper(open, Punct(CLOSE_BRACE)))
    decreases |s|, 1
  {
    hide Next, Depth, Value;
    DepthStep(s, open, depth);
    DepthStep(Next(s).rest, open, depth);
    var v := MemberValue(s).value;
    DepthOverValue(v, open, depth);
    var t := Value(v).value;
    DepthStep(t, open, depth);
    if Next(t).kind == Punct(COMMA) { DepthOverMembers(Next(t).rest, open, depth); }
  }

  /** Started at a value, the loop with one counter stops right behind it too. */
  lemma {:induction false} DepthFollowsGrammar(s: bytes)
    requires Value(s).Some?
    ensures SkipByDepth(s) == Skipped(Value(s).value)
  {
    hide Next, Elements, Members;
    var l := Next(s);
    if Opens(l.kind) {
      var close := Closing(l.kind);
      if Next(l.rest).kind == close {
        DepthStep(l.rest, l.kind, 1);
      } else if l.kind == Punct(OPEN_BRACKET) {
        DepthOverElements(l.rest, l.kind, 1);
      } else {
        DepthOverMembers(l.rest, l.kind, 1);
      }
    }
  }

  // ----- When the two skips agree -----

  function Twin(open: Kind): Kind {
    if open == Punct(OPEN_BRACE) then Punct(OPEN_BRACKET) else Punct(OPEN_BRACE)
  }

  /**
   How many of the other kind of bracket are open where the depth of this kind first returns to zero;
   nothing if it never does.
   */
  function Balance(s: bytes, open: Kind, depth: nat, others: int): Option<int>
    requires Opens(open)
    decreases |s|
  {
    if depth == 0 then Some(others)
    else
      var l := Next(s);
      if l.kind == Eof || l.rest == s then None
      else Balance(l.rest, open, depth + Deeper(open, l.kind), others + Deeper(Twin(open), l.kind))
  }

  /** The two counters, told by their kinds. */
  function CountBoth(s: bytes, open: Kind, depth: int, others: int): Outcome {
    if open == Punct(OPEN_BRACE) then Count(s, depth, others) else Count(s, others, depth)
  }

  /** With a bracket open or missing, the loop stops behind another bracket. */
  lemma {:induction false} CountMovesOn(s: bytes, brace: int, bracket: int)
    requires brace != 0 || bracket != 0
    ensures var o := Count(s, brace, bracket); o.Skipped? ==> |o.rest| < |s|
    decreases |s|
  {
    hide Next;
    var l := Next(s);
    var b := brace + Brace(l.kind);
    var k := bracket + Bracket(l.kind);
    if (b != 0 || k != 0) && |l.rest| < |s| { CountMovesOn(l.rest, b, k); }
  }

  lemma {:induction false} BothStep(s: bytes, open: Kind, depth: nat, others: int)
    requires Opens(open) && depth > 0 && Next(s).kind != Eof
    ensures var l := Next(s);
            CountBoth(s, open, depth, others)
            == if l.rest == s then Forever
               else if depth + Deeper(open, l.kind) == 0 && others + Deeper(Twin(open), l.kind) == 0 then Skipped(l.rest)
               else CountBoth(l.rest, open, depth + Deeper(open, l.kind), others + Deeper(Twin(open), l.kind))
  {
    hide Next;
    if Next(s).rest == s { BadTokenRepeats(s); }
  }

  lemma {:induction false} BothAgreeIff(s: bytes, open: Kind, depth: nat, others: int)
    requires Opens(open) && depth > 0
    ensures CountBoth(s, open, depth, others) == Depth(s, open, depth)
            <==> Balance(s, open, depth, others) == None || Balance(s, open, depth, others) == Some(0)
    decreases |s|
  {
    hide Next, CountBoth;
    var l := Next(s);
    if l.kind == Eof {
      BothAtEnd(s, open, depth, others);
    } else {
      BothStep(s, open, depth, others);
      var d := depth + Deeper(open, l.kind);
      var n := others + Deeper(Twin(open), l.kind);
      if l.rest != s {
        if d > 0 { BothAgreeIff(l.rest, open, d, n); } else if n != 0 { BothMoveOn(l.rest, open, n); }
      }
    }
  }

  lemma {:induction false} BothAtEnd(s: bytes, open: Kind, depth: nat, others: int)
    requires Next(s).kind == Eof
    ensures CountBoth(s, open, depth, others) == AtEnd
  {
    hide Next;
  }

  lemma {:induction false} BothMoveOn(s: bytes, open: Kind, others: int)
    requires others != 0
    ensures CountBoth(s, open, 0, others) != Skipped(s)
  {
    hide Count;
    CountMovesOn(s, 0, others);
    CountMovesOn(s, others, 0);
  }

  /**
   On any text: from an opening bracket the two skips agree if and only if the other kind of bracket is
   balanced where this kind first is, or this kind never is; elsewhere if and only if there is a token
   and it closes nothing.
   */
  lemma {:induction false} SkipsAgreeIff(s: bytes)
    ensures var l := Next(s);
            Count(s, 0, 0) == SkipByDepth(s) <==>
              if Opens(l.kind) then Balance(l.rest, l.kind, 1, 0) == None || Balance(l.rest, l.kind, 1, 0) == Some(0)
              else l.kind != Eof && l.kind != Punct(CLOSE_BRACE) && l.kind != Punct(CLOSE_BRACKET)
  {
    hide Next, Depth, Balance;
    var l := Next(s);
    if Opens(l.kind) {
      TokenMoves(s);
      BothAgreeIff(l.rest, l.kind, 1, 0);
    } else if l.kind == Punct(CLOSE_BRACE) {
      TokenMoves(s);
      CountMovesOn(l.rest, -1, 0);
    } else if l.kind == Punct(CLOSE_BRACKET) {
      TokenMoves(s);
      CountMovesOn(l.rest, 0, -1);
    }
  }

  lemma {:induction false} TokenMoves(s: bytes)
    requires Next(s).kind != Eof && Next(s).kind != Error
    ensures |Next(s).rest| < |s|
  {
  }

  /** A stray closing brace ends one skip and not the other. */
  lemma {:induction false} SkipsDifferOffGrammar()
    ensures Count([CLOSE_BRACE], 0, 0) == AtEnd && SkipByDepth([CLOSE_BRACE]) == Skipped([])
  {
    assert SkipGap([CLOSE_BRACE]) == [CLOSE_BRACE];
    assert Next([CLOSE_BRACE]) == Lexeme(Punct(CLOSE_BRACE), [], []);
    assert Next([]).kind == Eof;
    assert Count([], -1, 0) == AtEnd;
  }

  method SkipValueByDepth(r: Reader, txt: Buffer) returns (o: Outcome)
    requires r.Valid() && txt.Valid() && txt.HasBuffer() && r !in txt.Repr
    modifies r`pos, txt.Repr
    ensures r.Valid() && txt.Valid() && txt.HasBuffer() && fresh(txt.Repr - old(txt.Repr))
    ensures o == SkipByDepth(old(r.Rest()))
    ensures o.Skipped? ==> r.Rest() == o.rest
  {
    hide Next;
    var open := NextToken(r, txt);
    if !Opens(open) { return Skipped(r.data[r.pos..]); }
    var depth := 1;
    while depth > 0
      invariant r.Valid() && txt.Valid() && txt.HasBuffer() && fresh(txt.Repr - old(txt.Repr)) && r !in txt.Repr
      invariant depth >= 0 && Depth(r.Rest(), open, depth) == SkipByDepth(old(r.Rest()))
      decreases |r.Rest()|
    {
      var before := r.pos;
      ghost var s := r.Rest();
      var tk := NextToken(r, txt);
      if tk == Eof { return AtEnd; }
      if r.pos == before { return Forever; }
      if tk == open { depth := depth + 1; } else if tk == Closing(open) { depth := depth - 1; }
    }
    return Skipped(r.data[r.pos..]);
  }
}
