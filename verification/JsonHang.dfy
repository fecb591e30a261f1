/** Texts on which skipping a value does not end. */
module JsonHang {
  import opened Bytes
  import opened JsonString
  import opened JsonLex
  import opened JsonSkip

  // ----- Tokens that do not move -----

  /** No gap, and an octet that starts no token, or a string that goes wrong before its first four-digit escape. */
  lemma {:induction false} StuckIff(s: bytes)
    ensures Stuck(s) <==>
              && SkipGap(s) == s && s != []
              && if s[0] == QUOTE then ParseString(s) == Bad(s) else !IsPunct(s[0]) && !StartsNumber(s) && !IsAlpha(s[0])
  {
    hide ParseString, Number;
    GapIsPassed(s);
    if s != [] && SkipGap(s) == s && s[0] != QUOTE && !IsPunct(s[0]) && !StartsNumber(s) {
      assert AfterLetters(s) == s <==> !IsAlpha(s[0]);
    }
  }

  lemma {:induction false} GapIsPassed(s: bytes)
    ensures Next(s).rest == s ==> SkipGap(s) == s
  {
    hide Token;
  }

  // ----- Runs of tokens -----

  /** What is left behind the first `n` tokens, and what these add to the counts and to the depth. */
  function After(s: bytes, n: nat): bytes
    decreases n
  {
    if n == 0 then s else After(Next(s).rest, n - 1)
  }

  function Braces(s: bytes, n: nat): int
    decreases n
  {
    if n == 0 then 0 else Brace(Next(s).kind) + Braces(Next(s).rest, n - 1)
  }

  function Brackets(s: bytes, n: nat): int
    decreases n
  {
    if n == 0 then 0 else Bracket(Next(s).kind) + Brackets(Next(s).rest, n - 1)
  }

  function Levels(s: bytes, open: Kind, n: nat): int
    decreases n
  {
    if n == 0 then 0 else Deeper(open, Next(s).kind) + Levels(Next(s).rest, open, n - 1)
  }

  lemma {:induction false} EndStays(s: bytes, n: nat)
    requires Next(s).kind == Eof
    ensures Next(After(s, n)).kind == Eof
    decreases n
  {
    if n > 0 {
      assert Next(s).rest == [];
      EndStays(Next(s).rest, n - 1);
    }
  }

  // ----- Two counters -----

  /** Up to a token that does not move, itself included, the counters are never both zero. */
  ghost predicate CountHangsAt(s: bytes, brace: int, bracket: int, n: nat) {
    && Stuck(After(s, n))
    && forall k :: 0 < k <= n + 1 ==> brace + Braces(s, k) != 0 || bracket + Brackets(s, k) != 0
  }

  lemma {:induction false} CountHangsFrom(s: bytes, brace: int, bracket: int, n: nat)
    ensures CountHangsAt(s, brace, bracket, n) <==>
              var l := Next(s); var b := brace + Brace(l.kind); var k := bracket + Bracket(l.kind);
              (b != 0 || k != 0) && if n == 0 then Stuck(s) else CountHangsAt(l.rest, b, k, n - 1)
  {
    hide Next;
    var l := Next(s);
    assert Braces(s, 1) == Brace(l.kind) && Brackets(s, 1) == Bracket(l.kind);
    if CountHangsAt(s, brace, bracket, n) {
      forall k | 0 < k <= n
        ensures brace + Brace(l.kind) + Braces(l.rest, k) != 0 || bracket + Bracket(l.kind) + Brackets(l.rest, k) != 0
      {
        assert brace + Braces(s, k + 1) != 0 || bracket + Brackets(s, k + 1) != 0;
      }
    }
    if n > 0 && CountHangsAt(l.rest, brace + Brace(l.kind), bracket + Bracket(l.kind), n - 1) {
      forall k | 1 < k <= n + 1 ensures brace + Braces(s, k) != 0 || bracket + Brackets(s, k) != 0 {
        assert Braces(s, k) == Brace(l.kind) + Braces(l.rest, k - 1);
      }
    }
  }

  /** The loop with two counters never ends exactly where it meets such a token. */
  lemma {:induction false} CountForeverIff(s: bytes, brace: int, bracket: int)
    ensures Count(s, brace, bracket) == Forever <==> exists n: nat :: CountHangsAt(s, brace, bracket, n)
    decreases |s|
  {
    hide Next, CountHangsAt, Braces, Brackets;
    var l := Next(s);
    var b := brace + Brace(l.kind);
    var k := bracket + Bracket(l.kind);
    forall n: nat ensures CountHangsAt(s, brace, bracket, n) <==>
                            (b != 0 || k != 0) && if n == 0 then Stuck(s) else CountHangsAt(l.rest, b, k, n - 1)
    {
      CountHangsFrom(s, brace, bracket, n);
    }
    if l.kind == Eof {
      forall n: nat ensures !CountHangsAt(s, brace, bracket, n) { NoHangAtEnd(s, brace, bracket, n); }
    } else if b != 0 || k != 0 {
      if l.rest == s {
        assert CountHangsAt(s, brace, bracket, 0);
      } else {
        CountForeverIff(l.rest, b, k);
        if n: nat :| CountHangsAt(l.rest, b, k, n) { assert CountHangsAt(s, brace, bracket, n + 1); }
      }
    }
  }

  lemma {:induction false} NoHangAtEnd(s: bytes, brace: int, bracket: int, n: nat)
    requires Next(s).kind == Eof
    ensures !CountHangsAt(s, brace, bracket, n)
  {
    hide Next;
    EndStays(s, n);
  }

  /** `[@`. */
  const OPEN_AT: bytes := [OPEN_BRACKET, 64]

  lemma {:induction false} OpenAtTokens()
    ensures Next(OPEN_AT) == Lexeme(Punct(OPEN_BRACKET), [], [64]) && Next([64]) == Lexeme(Error, [], [64]) && Stuck([64])
  {
    assert SkipGap(OPEN_AT) == OPEN_AT && SkipGap([64]) == [64];
    assert OPEN_AT[1..] == [64];
  }

  /** Both skips hang there. */
  lemma {:induction false} SkipsHang()
    ensures Count(OPEN_AT, 0, 0) == Forever && SkipByDepth(OPEN_AT) == Forever
  {
    hide Next;
    OpenAtTokens();
    assert Count([64], 0, 1) == Forever;
    assert Depth([64], Punct(OPEN_BRACKET), 1) == Forever;
  }

  // ----- One counter -----

  /** Up to such a token the depth stays above zero. */
  ghost predicate DepthHangsAt(s: bytes, open: Kind, depth: nat, n: nat) {
    Stuck(After(s, n)) && forall k :: 0 <= k <= n ==> depth + Levels(s, open, k) != 0
  }

  lemma {:induction false} DepthHangsFrom(s: bytes, open: Kind, depth: nat, n: nat)
    requires depth > 0
    ensures DepthHangsAt(s, open, depth, n) <==>
              if n == 0 then Stuck(s) else DepthHangsAt(Next(s).rest, open, depth + Deeper(open, Next(s).kind), n - 1)
  {
    hide Next;
    var l := Next(s);
    assert Levels(s, open, 0) == 0;
    if n > 0 && DepthHangsAt(s, open, depth, n) {
      forall k | 0 <= k < n ensures depth + Deeper(open, l.kind) + Levels(l.rest, open, k) != 0 {
        assert depth + Levels(s, open, k + 1) != 0;
      }
    }
    if n > 0 && DepthHangsAt(l.rest, open, depth + Deeper(open, l.kind), n - 1) {
      forall k | 0 < k <= n ensures depth + Levels(s, open, k) != 0 {
        assert Levels(s, open, k) == Deeper(open, l.kind) + Levels(l.rest, open, k - 1);
      }
    }
  }

  lemma {:induction false} DepthForeverIff(s: bytes, open: Kind, depth: nat)
    requires Opens(open)
    ensures Depth(s, open, depth) == Forever <==> exists n: nat :: DepthHangsAt(s, open, depth, n)
    decreases |s|
  {
    hide Next, DepthHangsAt;
    var l := Next(s);
    if depth == 0 {
      forall n: nat ensures !DepthHangsAt(s, open, depth, n) { NoHangAtZero(s, open, n); }
    } else {
      var d := depth + Deeper(open, l.kind);
      forall n: nat
        ensures DepthHangsAt(s, open, depth, n) <==> if n == 0 then Stuck(s) else DepthHangsAt(l.rest, open, d, n - 1)
      {
        DepthHangsFrom(s, open, depth, n);
      }
      if l.kind == Eof {
        forall n: nat ensures !DepthHangsAt(s, open, depth, n) { NoLevelAtEnd(s, open, depth, n); }
      } else if l.rest == s {
        assert DepthHangsAt(s, open, depth, 0);
      } else {
        DepthForeverIff(l.rest, open, d);
        if n: nat :| DepthHangsAt(l.rest, open, d, n) { assert DepthHangsAt(s, open, depth, n + 1); }
      }
    }
  }

  lemma {:induction false} NoHangAtZero(s: bytes, open: Kind, n: nat)
    ensures !DepthHangsAt(s, open, 0, n)
  {
    assert 0 + Levels(s, open, 0) == 0;
  }

  lemma {:induction false} NoLevelAtEnd(s: bytes, open: Kind, depth: nat, n: nat)
    requires Next(s).kind == Eof
    ensures !DepthHangsAt(s, open, depth, n)
  {
    hide Next;
    EndStays(s, n);
  }

  /** The skip emitted into a union's reader never ends exactly behind an opening bracket that leads to such a token. */
  lemma {:induction false} DepthSkipForeverIff(s: bytes)
    ensures SkipByDepth(s) == Forever
            <==> Opens(Next(s).kind) && exists n: nat :: DepthHangsAt(Next(s).rest, Next(s).kind, 1, n)
  {
    hide Next, Depth, DepthHangsAt;
    if Opens(Next(s).kind) { DepthForeverIff(Next(s).rest, Next(s).kind, 1); }
  }
}
