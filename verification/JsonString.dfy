/** JSON string tokens: quoting, unquoting and the `\uXXXX` escapes of section 7 of RFC 8259. */
module JsonString {
  import opened Bytes
  import opened Sstr
  import opened Runtime
  import Utf8

  const QUOTE: byte := 34
  const BACKSLASH: byte := 92
  const LOWER_U: byte := 117

  // ----- Quoting -----

  predicate NeedsEscape(b: byte) {
    b <= 31 || b == QUOTE || b == BACKSLASH
  }

  function HexDigit(v: nat): byte
    requires v < 16
  {
    if v < 10 then 48 + v else 87 + v
  }

  /** `\b \f \n \r \t`, then `\u00xx`. */
  function Escaped(b: byte): bytes {
    if b == BACKSLASH || b == QUOTE then [BACKSLASH, b]
    else if b == 8 then [BACKSLASH, 98]
    else if b == 12 then [BACKSLASH, 102]
    else if b == 10 then [BACKSLASH, 110]
    else if b == 13 then [BACKSLASH, 114]
    else if b == 9 then [BACKSLASH, 116]
    else if b <= 31 then [BACKSLASH, LOWER_U, 48, 48, HexDigit(b / 16), HexDigit(b % 16)]
    else [b]
  }

  function Escape(s: bytes): bytes {
    if s == [] then [] else Escaped(s[0]) + Escape(s[1..])
  }

  /** Clean runs are appended whole. */
  method AppendEscaped(out: Buffer, s: bytes)
    requires out.Valid()
    modifies out.Repr
    ensures out.Valid() && fresh(out.Repr - old(out.Repr))
    ensures out.Contents() == old(out.Contents()) + Escape(s)
  {
    hide Escaped, Escape, NeedsEscape;
    var first := CleanRun(s, 0);
    CleanIsItself(s, 0, first);
    NothingLeft(s);
    assert s[0..] == s && s[0..first] == s[..first];
    if first == |s| {
      out.AppendOf(s);
      return;
    }
    if first > 0 { out.AppendOf(s[..first]); }
    var i := first;
    while i < |s|
      invariant first <= i <= |s| && out.Valid() && fresh(out.Repr - old(out.Repr))
      invariant out.Contents() + Escape(s[i..]) == old(out.Contents()) + Escape(s)
    {
      i := AppendNext(out, s, i);
    }
  }

  /** One escaped octet, or one clean run. */
  method AppendNext(out: Buffer, s: bytes, i: nat) returns (j: nat)
    requires out.Valid() && i < |s|
    modifies out.Repr
    ensures out.Valid() && fresh(out.Repr - old(out.Repr)) && i < j <= |s|
    ensures out.Contents() + Escape(s[j..]) == old(out.Contents()) + Escape(s[i..])
  {
    hide Escaped, Escape;
    if NeedsEscape(s[i]) {
      EscapeStep(s, i, out.Contents());
      out.AppendOf(Escaped(s[i]));
      j := i + 1;
    } else {
      j := CleanRun(s, i);
      CleanIsItself(s, i, j);
      Regroup(out.Contents(), s[i..j], Escape(s[j..]));
      out.AppendOf(s[i..j]);
    }
  }

  lemma {:induction false} NothingLeft(s: bytes)
    ensures Escape(s[|s|..]) == [] && s[..|s|] + [] == s
    ensures forall a: bytes :: a + [] == a
  {
  }

  lemma {:induction false} EscapeStep(s: bytes, i: nat, was: bytes)
    requires i < |s|
    ensures was + Escaped(s[i]) + Escape(s[i + 1..]) == was + Escape(s[i..])
  {
    hide Escaped;
    assert s[i..][1..] == s[i + 1..];
  }

  /** The end of the run from `i` that needs no escape. */
  method CleanRun(s: bytes, i: nat) returns (j: nat)
    requires i <= |s|
    ensures i <= j <= |s| && forall k :: i <= k < j ==> !NeedsEscape(s[k])
    ensures j < |s| ==> NeedsEscape(s[j])
  {
    j := i;
    while j < |s| && !NeedsEscape(s[j])
      invariant i <= j <= |s| && forall k :: i <= k < j ==> !NeedsEscape(s[k])
    {
      j := j + 1;
    }
  }

  lemma {:induction false} CleanIsItself(s: bytes, i: nat, j: nat)
    requires i <= j <= |s| && forall k :: i <= k < j ==> !NeedsEscape(s[k])
    ensures Escape(s[i..]) == s[i..j] + Escape(s[j..])
    decreases j - i
  {
    if i < j {
      CleanIsItself(s, i + 1, j);
      assert s[i..][0] == s[i] && s[i..][1..] == s[i + 1..];
      assert s[i..j] == [s[i]] + s[i + 1..j];
      Regroup([s[i]], s[i + 1..j], Escape(s[j..]));
    }
  }

  // ----- Unquoting -----

  /** What was read and what follows, or where a failed read leaves the cursor. */
  datatype Text = Good(text: bytes, rest: bytes) | Bad(rest: bytes)

  function Prepend(t: bytes, r: Text): Text {
    match r
    case Good(text, rest) => Good(t + text, rest)
    case Bad(rest) => Bad(rest)
  }

  /** -1 for what is no hexadecimal digit. */
  function HexValue(c: byte): int {
    if 48 <= c <= 57 then c - 48
    else if 65 <= c <= 70 then 10 + c - 65
    else if 97 <= c <= 102 then 10 + c - 97
    else -1
  }

  predicate HexDigits(h: bytes) {
    |h| == 4 && forall i :: 0 <= i < 4 ==> HexValue(h[i]) >= 0
  }

  /** The number four digits stand for; what holds another character reads as zero. */
  function Hex4(h: bytes): (v: nat)
    requires |h| == 4
    ensures v <= 0xFFFF
  {
    if HexDigits(h) then ((HexValue(h[0]) * 16 + HexValue(h[1])) * 16 + HexValue(h[2])) * 16 + HexValue(h[3]) else 0
  }

  predicate HighSurrogate(u: int) {
    0xD800 <= u <= 0xDBFF
  }

  predicate LowSurrogate(u: int) {
    0xDC00 <= u <= 0xDFFF
  }

  /** The code point a surrogate pair stands for. */
  function Paired(high: int, low: int): (cp: nat)
    requires HighSurrogate(high) && LowSurrogate(low)
    ensures 0x1_0000 <= cp <= 0x10FFFF
  {
    0x1_0000 + high % 0x400 * 0x400 + low % 0x400
  }

  /** An escape from its `u` on. At least one octet must follow the last digit. */
  function DecodeEscape(s: bytes): (r: Text)
    ensures |r.rest| <= |s| && (r.Good? ==> |r.rest| < |s|)
  {
    if |s| <= 5 then Bad(s)
    else
      var first := Hex4(s[1..5]);
      var t := s[5..];
      if LowSurrogate(first) then Bad(t)
      else if !HighSurrogate(first) then Good(Utf8.Encode(first), t)
      else if |t| <= 6 || t[0] != BACKSLASH || t[1] != LOWER_U then Bad(t)
      else
        var second := Hex4(t[2..6]);
        if LowSurrogate(second) then Good(Utf8.Encode(Paired(first, second)), t[6..]) else Bad(t)
  }

  /** The octet of a two-character escape, or -1. */
  function Unescaped(c: byte): int {
    if c == 98 then 8
    else if c == 102 then 12
    else if c == 110 then 10
    else if c == 114 then 13
    else if c == 116 then 9
    else if c == QUOTE || c == BACKSLASH || c == 47 then c
    else -1
  }

  /** What follows an opening quote. A failure leaves the cursor behind the last `\u` escape met, if any. */
  function StringBody(s: bytes, moved: bytes): (r: Text)
    ensures if r.Good? then |r.rest| < |s| else r.rest == moved || |r.rest| <= |s|
    decreases |s|
  {
    if s == [] then Bad(moved)
    else if s[0] == QUOTE then Good([], s[1..])
    else if s[0] != BACKSLASH then Prepend([s[0]], StringBody(s[1..], moved))
    else if |s| == 1 then Bad(moved)
    else if s[1] == LOWER_U then
      match DecodeEscape(s[1..])
      case Bad(rest) => Bad(rest)
      case Good(text, rest) => Prepend(text, StringBody(rest, rest))
    else if Unescaped(s[1]) != -1 then Prepend([Unescaped(s[1])], StringBody(s[2..], moved))
    else Bad(moved)
  }

  function ParseString(s: bytes): (r: Text)
    ensures |r.rest| <= |s| && (r.Good? ==> |r.rest| < |s|) && (|r.rest| == |s| ==> r.rest == s)
  {
    if s == [] || s[0] != QUOTE then Bad(s) else StringBody(s[1..], s)
  }

  // ----- Laws -----

  /** Every byte string survives quoting and unquoting, and the cursor ends behind the closing quote. */
  lemma {:induction false} QuotedRoundTrips(s: bytes, rest: bytes)
    ensures ParseString([QUOTE] + Escape(s) + [QUOTE] + rest) == Good(s, rest)
  {
    var q := [QUOTE] + Escape(s) + [QUOTE] + rest;
    assert q[1..] == Escape(s) + ([QUOTE] + rest);
    BodyOfEscape(s, rest, q);
  }

  lemma {:induction false} BodyOfEscape(s: bytes, rest: bytes, moved: bytes)
    ensures StringBody(Escape(s) + ([QUOTE] + rest), moved) == Good(s, rest)
    decreases |s|
  {
    hide StringBody, Escaped;
    var closing := [QUOTE] + rest;
    if s == [] {
      assert [] + closing == closing && closing[1..] == rest;
      BodyAtEnd(closing, moved, []);
      PrependNothing(StringBody(closing, moved));
    } else {
      var more := Escape(s[1..]) + closing;
      Regroup(Escaped(s[0]), Escape(s[1..]), closing);
      BodyOfEscape(s[1..], rest, moved);
      BodyOfEscape(s[1..], rest, more);
      OneEscaped(s[0], more, moved);
      assert s == [s[0]] + s[1..];
    }
  }

  lemma {:induction false} OneEscaped(b: byte, more: bytes, moved: bytes)
    requires more != []
    ensures StringBody(Escaped(b) + more, moved) == Prepend([b], StringBody(more, moved))
            || StringBody(Escaped(b) + more, moved) == Prepend([b], StringBody(more, more))
  {
    hide DecodeEscape;
    var e := Escaped(b);
    var s := e + more;
    if !NeedsEscape(b) {
      assert s[1..] == more;
    } else if e[1] == LOWER_U {
      ControlEscape(b, more);
      assert s[1..] == e[1..] + more;
    } else {
      assert s[2..] == more;
    }
  }

  lemma {:induction false} ControlEscape(b: byte, more: bytes)
    requires b <= 31 && more != []
    ensures DecodeEscape([LOWER_U, 48, 48, HexDigit(b / 16), HexDigit(b % 16)] + more) == Good([b], more)
  {
    var h := [48, 48, HexDigit(b / 16), HexDigit(b % 16)];
    assert HexValue(h[2]) == b / 16 && HexValue(h[3]) == b % 16;
    assert Hex4(h) == b;
    EscapeOfUnit(h, more);
  }

  /** Four digits, with something behind them, stand for the UTF-8 form of the code point they name. */
  lemma {:induction false} EscapeOfUnit(h: bytes, s: bytes)
    requires |h| == 4 && s != [] && !LowSurrogate(Hex4(h)) && !HighSurrogate(Hex4(h))
    ensures DecodeEscape([LOWER_U] + h + s) == Good(Utf8.Encode(Hex4(h)), s)
  {
    hide Hex4;
    var t := [LOWER_U] + h + s;
    assert t[1..5] == h && t[5..] == s;
  }

  /** A surrogate pair stands for the UTF-8 form of the one code point it encodes. */
  lemma {:induction false} EscapeOfPair(h: bytes, l: bytes, s: bytes)
    requires |h| == |l| == 4 && s != [] && HighSurrogate(Hex4(h)) && LowSurrogate(Hex4(l))
    ensures DecodeEscape([LOWER_U] + h + [BACKSLASH, LOWER_U] + l + s) == Good(Utf8.Encode(Paired(Hex4(h), Hex4(l))), s)
  {
    hide Hex4;
    var t := [LOWER_U] + h + [BACKSLASH, LOWER_U] + l + s;
    assert t[1..5] == h && t[5..] == [BACKSLASH, LOWER_U] + l + s;
    assert t[5..][2..6] == l && t[5..][6..] == s;
  }

  /** Section 7 of RFC 8259: the pair of a code point outside the basic plane, digits in either case. */
  lemma {:induction false} PairNamesCodePoint(cp: nat, high: nat, low: nat)
    requires 0x1_0000 <= cp <= 0x10FFFF
    ensures HighSurrogate(0xD800 + (cp - 0x1_0000) / 0x400) && LowSurrogate(0xDC00 + (cp - 0x1_0000) % 0x400)
    ensures HighSurrogate(high) && LowSurrogate(low) ==>
              (Paired(high, low) == cp <==> high == 0xD800 + (cp - 0x1_0000) / 0x400 && low == 0xDC00 + (cp - 0x1_0000) % 0x400)
  {
  }

  /** The escapes the decoder takes. */
  predicate WellEscaped(s: bytes) {
    && |s| > 5
    && !LowSurrogate(Hex4(s[1..5]))
    && (HighSurrogate(Hex4(s[1..5])) ==> |s| > 11 && s[5] == BACKSLASH && s[6] == LOWER_U && LowSurrogate(Hex4(s[7..11])))
  }

  /** No lone surrogate gets through, and what does is read as its code point. */
  lemma {:induction false} EscapeAcceptedIff(s: bytes)
    requires s != [] && s[0] == LOWER_U
    ensures DecodeEscape(s).Good? <==> WellEscaped(s)
    ensures WellEscaped(s) ==>
              exists cp :: Utf8.Scalar(cp) && Utf8.Decode(DecodeEscape(s).text) == Some((cp, []))
                           && cp == if HighSurrogate(Hex4(s[1..5])) then Paired(Hex4(s[1..5]), Hex4(s[7..11])) else Hex4(s[1..5])
  {
    hide Hex4, Utf8.Decode, Utf8.Encode;
    if |s| > 11 { assert s[5..][2..6] == s[7..11] && s[5..][0] == s[5] && s[5..][1] == s[6]; }
    if |s| > 5 && WellEscaped(s) {
      var cp := if HighSurrogate(Hex4(s[1..5])) then Paired(Hex4(s[1..5]), Hex4(s[7..11])) else Hex4(s[1..5]);
      Utf8.DecodeOfEncode(cp, []);
      assert Utf8.Encode(cp) + [] == Utf8.Encode(cp);
    }
  }

  /** Section 7 of RFC 8259 asks for four digits; anything else is taken for U+0000 instead of refused. */
  lemma {:induction false} BadDigitsReadAsNul(h: bytes, s: bytes)
    requires |h| == 4 && s != [] && !HexDigits(h)
    ensures DecodeEscape([LOWER_U] + h + s) == Good([0], s)
  {
    EscapeOfUnit(h, s);
  }

  /** The escape as RFC 8259 reads it: the code point and what follows. */
  function RfcEscape(s: bytes): Option<(nat, bytes)> {
    if |s| < 5 || !HexDigits(s[1..5]) || LowSurrogate(Hex4(s[1..5])) then None
    else if !HighSurrogate(Hex4(s[1..5])) then Some((Hex4(s[1..5]), s[5..]))
    else if |s| < 11 || s[5] != BACKSLASH || s[6] != LOWER_U || !HexDigits(s[7..11]) || !LowSurrogate(Hex4(s[7..11])) then None
    else Some((Paired(Hex4(s[1..5]), Hex4(s[7..11])), s[11..]))
  }

  /** Both refuse an escape that nothing follows; a string has at least its closing quote left. */
  predicate ReadsAsRfc(s: bytes) {
    var rfc := RfcEscape(s);
    match DecodeEscape(s)
    case Good(text, rest) => rfc.Some? && rfc.value.1 == rest && Utf8.Encode(rfc.value.0) == text
    case Bad(_) => rfc.None? || rfc.value.1 == []
  }

  /** The decoder follows the RFC exactly when the first four characters are digits. */
  lemma {:induction false} ReadsAsRfcIffDigits(s: bytes)
    requires s != [] && s[0] == LOWER_U
    ensures ReadsAsRfc(s) <==> |s| <= 5 || HexDigits(s[1..5])
  {
    hide Utf8.Encode;
    if |s| > 5 {
      var t := s[5..];
      assert |t| > 6 ==> t[2..6] == s[7..11] && t[0] == s[5] && t[1] == s[6] && t[6..] == s[11..];
    }
  }

  // ----- The reader -----

  /** Digit by digit, most significant first. */
  method ParseHex4(h: bytes) returns (v: nat)
    requires |h| == 4
    ensures v == Hex4(h)
  {
    v := 0;
    var i := 0;
    while i < 4
      invariant 0 <= i <= 4 && forall k :: 0 <= k < i ==> HexValue(h[k]) >= 0
      invariant i == 0 ==> v == 0
      invariant i == 1 ==> v == HexValue(h[0]) * 16
      invariant i == 2 ==> v == (HexValue(h[0]) * 16 + HexValue(h[1])) * 16
      invariant i == 3 ==> v == ((HexValue(h[0]) * 16 + HexValue(h[1])) * 16 + HexValue(h[2])) * 16
      invariant i == 4 ==> v == Hex4(h)
    {
      var d := HexValue(h[i]);
      if d == -1 { return 0; }
      v := v + d;
      if i < 3 { v := v * 16; }
      i := i + 1;
    }
  }

  method Utf16LiteralToUtf8(r: Reader, txt: Buffer) returns (ok: bool)
    requires r.Valid() && txt.Valid() && r !in txt.Repr
    requires txt.Contents() == []
    modifies r`pos, txt.Repr
    ensures r.Valid() && txt.Valid() && fresh(txt.Repr - old(txt.Repr))
    ensures ok ==> DecodeEscape(old(r.Rest())) == Good(txt.Contents(), r.Rest()) && r.pos > old(r.pos)
    ensures !ok ==> DecodeEscape(old(r.Rest())) == Bad(r.Rest())
  {
    hide Hex4, Utf8.Encode;
    var len := |r.data|;
    var i := r.pos;
    if i + 5 >= len { return false; }
    ghost var s := r.Rest();
    assert s[1..5] == r.data[i + 1..i + 5];
    i := i + 1;
    var first := ParseHex4(r.data[i..i + 4]);
    var codepoint := 0;
    i := i + 4;
    r.pos := r.pos + 5;
    assert r.Rest() == s[5..];
    if 0xDC00 <= first <= 0xDFFF { return false; }
    if 0xD800 <= first <= 0xDBFF {
      if i + 6 >= len { return false; }
      if r.data[i] != BACKSLASH || r.data[i + 1] != LOWER_U { return false; }
      assert s[5..][2..6] == r.data[i + 2..i + 6];
      var second := ParseHex4(r.data[i + 2..i + 6]);
      if second < 0xDC00 || second > 0xDFFF { return false; }
      codepoint := 0x1_0000 + first % 0x400 * 0x400 + second % 0x400;
      r.pos := r.pos + 6;
      assert r.Rest() == s[5..][6..];
    } else {
      codepoint := first;
    }
    var utf8 := Utf8.EncodeInto(codepoint);
    txt.AppendOf(utf8);
    assert [] + utf8 == utf8;
    ok := true;
  }

  /** The end of the run from `i` without a quote or a backslash. */
  method PlainRun(s: bytes, i: nat) returns (j: nat)
    requires i <= |s|
    ensures i <= j <= |s| && forall k :: i <= k < j ==> s[k] != QUOTE && s[k] != BACKSLASH
    ensures j < |s| ==> s[j] == QUOTE || s[j] == BACKSLASH
  {
    j := i;
    while j < |s| && s[j] != QUOTE && s[j] != BACKSLASH
      invariant i <= j <= |s| && forall k :: i <= k < j ==> s[k] != QUOTE && s[k] != BACKSLASH
    {
      j := j + 1;
    }
  }

  lemma {:induction false} PlainRunIsRead(s: bytes, i: nat, j: nat, moved: bytes)
    requires i <= j <= |s| && forall k :: i <= k < j ==> s[k] != QUOTE && s[k] != BACKSLASH
    ensures StringBody(s[i..], moved) == Prepend(s[i..j], StringBody(s[j..], moved))
    decreases j - i
  {
    hide DecodeEscape;
    if i < j {
      PlainRunIsRead(s, i + 1, j, moved);
      assert s[i..][0] == s[i] && s[i..][1..] == s[i + 1..];
      assert s[i..j] == [s[i]] + s[i + 1..j];
      PrependTwice([s[i]], s[i + 1..j], StringBody(s[j..], moved));
    } else {
      PrependNothing(StringBody(s[j..], moved));
    }
  }

  lemma {:induction false} PrependNothing(r: Text)
    ensures Prepend([], r) == r
  {
    match r
    case Good(text, _) => assert [] + text == text;
    case Bad(_) =>
  }

  lemma {:induction false} PrependTwice(a: bytes, b: bytes, r: Text)
    ensures Prepend(a, Prepend(b, r)) == Prepend(a + b, r)
  {
    match r
    case Good(text, _) => Regroup(a, b, text);
    case Bad(_) =>
  }

  /** The escape at `i`; a `\u` form moves the cursor even when it fails. */
  method ReadEscape(r: Reader, i: nat, txt: Buffer) returns (ok: bool, j: nat)
    requires r.Valid() && i < |r.data| && r.data[i] == BACKSLASH && txt.Valid() && txt.HasBuffer() && r !in txt.Repr
    modifies r`pos, txt.Repr
    ensures r.Valid() && txt.Valid() && txt.HasBuffer() && fresh(txt.Repr - old(txt.Repr))
    ensures ok ==> i < j <= |r.data| && Prepend(txt.Contents(), StringBody(r.data[j..], r.Rest()))
                   == Prepend(old(txt.Contents()), StringBody(r.data[i..], old(r.Rest())))
    ensures !ok ==> Prepend(old(txt.Contents()), StringBody(r.data[i..], old(r.Rest()))) == Bad(r.Rest())
  {
    hide StringBody, Prepend, DecodeEscape;
    j := i + 1;
    BodyAtBackslash(r.data[i..], r.Rest(), txt.Contents());
    if j >= |r.data| { return false, j; }
    assert r.data[i..][1..] == r.data[j..] && r.data[i..][2..] == r.data[j + 1..];
    if r.data[j] == LOWER_U {
      r.pos := j;
      var tmp := new Buffer();
      ok := Utf16LiteralToUtf8(r, tmp);
      if !ok { return; }
      var utf8 := tmp.Bytes();
      txt.AppendOf(utf8);
      j := r.pos;
    } else if Unescaped(r.data[j]) != -1 {
      txt.AppendOf([Unescaped(r.data[j])]);
      j := j + 1;
      ok := true;
    } else {
      ok := false;
    }
  }

  method ReadRun(r: Reader, i: nat, txt: Buffer) returns (j: nat)
    requires r.Valid() && i < |r.data| && r.data[i] != QUOTE && r.data[i] != BACKSLASH
    requires txt.Valid() && txt.HasBuffer() && r !in txt.Repr
    modifies txt.Repr
    ensures txt.Valid() && txt.HasBuffer() && fresh(txt.Repr - old(txt.Repr)) && i < j <= |r.data|
    ensures Prepend(txt.Contents(), StringBody(r.data[j..], r.Rest()))
            == Prepend(old(txt.Contents()), StringBody(r.data[i..], r.Rest()))
  {
    hide StringBody, Prepend;
    j := PlainRun(r.data, i);
    PlainRunIsRead(r.data, i, j, r.Rest());
    PrependTwice(txt.Contents(), r.data[i..j], StringBody(r.data[j..], r.Rest()));
    txt.AppendOf(r.data[i..j]);
  }

  /** Runs without escapes are taken whole; on failure the text is an error message, left out here. */
  method ParseStringToken(r: Reader, txt: Buffer) returns (ok: bool)
    requires r.Valid() && txt.Valid() && txt.HasBuffer() && r !in txt.Repr
    modifies r`pos, txt.Repr
    ensures r.Valid() && txt.Valid() && txt.HasBuffer() && fresh(txt.Repr - old(txt.Repr))
    ensures ok ==> ParseString(old(r.Rest())) == Good(txt.Contents(), r.Rest())
    ensures !ok ==> ParseString(old(r.Rest())) == Bad(r.Rest())
  {
    hide StringBody, Prepend;
    var len := |r.data|;
    var i := r.pos;
    if i >= len { return false; }
    if r.data[i] != QUOTE { return false; }
    ghost var all := r.Rest();
    i := i + 1;
    txt.ClearFast();
    assert r.data[i..] == all[1..];
    PrependNothing(StringBody(r.data[i..], r.Rest()));
    while i < len && r.data[i] != QUOTE
      invariant r.Valid() && i <= len && txt.Valid() && txt.HasBuffer() && fresh(txt.Repr - old(txt.Repr)) && r !in txt.Repr
      invariant Prepend(txt.Contents(), StringBody(r.data[i..], r.Rest())) == StringBody(all[1..], all)
      decreases len - i
    {
      if r.data[i] == BACKSLASH {
        ok, i := ReadEscape(r, i, txt);
        if !ok { return; }
      } else {
        i := ReadRun(r, i, txt);
      }
    }
    BodyAtEnd(r.data[i..], r.Rest(), txt.Contents());
    if i >= len { return false; }
    assert r.data[i..][1..] == r.data[i + 1..];
    r.pos := i + 1;
    ok := true;
  }

  lemma {:induction false} BodyAtBackslash(s: bytes, moved: bytes, was: bytes)
    requires s != [] && s[0] == BACKSLASH
    ensures Prepend(was, StringBody(s, moved))
            == if |s| == 1 then Bad(moved)
               else if s[1] == LOWER_U then
                 match DecodeEscape(s[1..])
                 case Bad(rest) => Bad(rest)
                 case Good(text, rest) => Prepend(was + text, StringBody(rest, rest))
               else if Unescaped(s[1]) != -1 then Prepend(was + [Unescaped(s[1])], StringBody(s[2..], moved))
               else Bad(moved)
  {
    hide DecodeEscape;
    if |s| > 1 && s[1] == LOWER_U {
      match DecodeEscape(s[1..])
      case Bad(_) =>
      case Good(text, rest) => PrependTwice(was, text, StringBody(rest, rest));
    } else if |s| > 1 && Unescaped(s[1]) != -1 {
      PrependTwice(was, [Unescaped(s[1])], StringBody(s[2..], moved));
    }
  }

  lemma {:induction false} BodyAtEnd(s: bytes, moved: bytes, was: bytes)
    ensures s == [] ==> Prepend(was, StringBody(s, moved)) == Bad(moved)
    ensures s != [] && s[0] == QUOTE ==> Prepend(was, StringBody(s, moved)) == Good(was, s[1..])
  {
    assert was + [] == was;
  }
}
