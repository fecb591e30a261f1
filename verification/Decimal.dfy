/** Integers as decimal text: the scalar printers, the `%d` and `%l` formats, and reading back. */
module Decimal {
  import opened Bytes
  import opened Sstr
  import opened Schema
  import opened JsonLex

  const INT32_LEN := 11
  const INT64_LEN := 20

  /** The decimal digits of `n`, without leading zeros. */
  function Digits(n: nat): (s: bytes)
    ensures |s| > 0 && forall c :: c in s ==> IsDigit(c)
  {
    if n < 10 then [48 + n] else Digits(n / 10) + [48 + n % 10]
  }

  function Text(v: int): (s: bytes)
    ensures |s| > 0
  {
    if v < 0 then [MINUS] + Digits(-v) else Digits(v)
  }

  function Pow10(n: nat): (p: nat)
    ensures p > 0
  {
    if n == 0 then 1 else 10 * Pow10(n - 1)
  }

  lemma {:induction false} DigitsFit(n: nat, width: nat)
    requires width > 0
    ensures |Digits(n)| <= width <==> n < Pow10(width)
    decreases width
  {
    if width == 1 {
      assert Pow10(1) == 10 * Pow10(0);
    } else if n >= 10 {
      DigitsFit(n / 10, width - 1);
    } else {
      assert Pow10(width) == 10 * Pow10(width - 1);
    }
  }

  lemma {:induction false} BufferSizes()
    ensures TWO_TO_THE_32 <= Pow10(INT32_LEN) && TWO_TO_THE_64 <= Pow10(INT64_LEN)
  {
    assert Pow10(4) == 10000;
    assert Pow10(8) == 10000 * Pow10(4);
    assert Pow10(12) == 10000 * Pow10(8);
    assert Pow10(16) == 10000 * Pow10(12);
    assert Pow10(20) == 10000 * Pow10(16);
  }

  // ----- Printing -----

  /** Digits written backwards from the end of a buffer that is just large enough. */
  method WriteBackwards(u: nat, temp: array<byte>) returns (p: nat)
    requires temp.Length > 0 && u < Pow10(temp.Length)
    modifies temp
    ensures p < temp.Length && temp[p..] == Digits(u)
  {
    hide Pow10;
    var v := u;
    p := temp.Length;
    DigitsFit(u, temp.Length);
    NothingWritten(temp[p..], Digits(u));
    while true
      invariant 0 < p <= temp.Length && |Digits(v)| <= p
      invariant Digits(v) + temp[p..] == Digits(u)
      decreases v
    {
      ghost var written := temp[p..];
      p := p - 1;
      temp[p] := v % 10 + 48;
      assert temp[p..] == [v % 10 + 48] + written;
      DigitMoves(v, written);
      v := v / 10;
      if v == 0 { return; }
    }
  }

  lemma {:induction false} NothingWritten(s: bytes, digits: bytes)
    requires s == []
    ensures digits + s == digits
  {
  }

  lemma {:induction false} DigitMoves(v: nat, written: bytes)
    ensures v < 10 ==> Digits(v) + written == [v % 10 + 48] + written
    ensures v >= 10 ==> Digits(v) + written == Digits(v / 10) + ([v % 10 + 48] + written)
    ensures v >= 10 ==> |Digits(v)| == |Digits(v / 10)| + 1
  {
    if v >= 10 { assert Digits(v / 10) + [v % 10 + 48] + written == Digits(v / 10) + ([v % 10 + 48] + written); }
  }

  /** Minus sign, then digits: what all four printers end with. */
  method AppendNumber(s: Buffer, negative: bool, u: nat, len: nat)
    requires s.Valid() && len > 0 && u < Pow10(len) && (negative ==> u > 0)
    modifies s.Repr
    ensures s.Valid() && fresh(s.Repr - old(s.Repr))
    ensures s.Contents() == old(s.Contents()) + Text(if negative then -(u as int) else u)
  {
    hide Pow10, Digits;
    var temp := new byte[len](_ => 0);
    var p := WriteBackwards(u, temp);
    var digits := temp[p..];
    if negative { s.AppendOf([MINUS]); }
    s.AppendOf(digits);
    Regroup(old(s.Contents()), [MINUS], digits);
  }

  /** The unsigned negation wraps, so the least value is printed like any other. */
  method Magnitude(v: int, modulus: int) returns (u: nat)
    requires -modulus < v < modulus
    ensures u == if v < 0 then -v else v
  {
    if v < 0 {
      assert v % modulus == v + modulus by { Wraps(v, modulus); }
      u := (0 - v % modulus) % modulus;
      Wraps(0 - v % modulus, modulus);
    } else {
      u := v;
    }
  }

  lemma {:induction false} Wraps(v: int, modulus: int)
    requires -modulus < v < 0
    ensures v % modulus == v + modulus
  {
    var q, r := v / modulus, v % modulus;
    assert v == modulus * q + r && 0 <= r < modulus;
    Between(modulus, q, r);
  }

  /** A multiple of the modulus with a remainder can lie just below zero only for the factor -1. */
  lemma {:induction false} Between(modulus: int, q: int, r: int)
    requires 0 <= r < modulus && -modulus < modulus * q + r < 0
    ensures q == -1 && modulus * q == -modulus
  {
    if q >= 0 {
      Grows(modulus, 0, q);
    } else if q <= -2 {
      Grows(modulus, q, -2);
    }
  }

  lemma {:induction false} Grows(m: int, a: int, b: int)
    requires m > 0 && a <= b
    ensures m * a <= m * b
  {
  }

  method AppendIntStr(s: Buffer, v: int)
    requires s.Valid() && InWidth(32, true, v)
    modifies s.Repr
    ensures s.Valid() && fresh(s.Repr - old(s.Repr)) && s.Contents() == old(s.Contents()) + Text(v)
  {
    hide Pow10, Digits;
    BufferSizes();
    var u := Magnitude(v, TWO_TO_THE_32);
    AppendNumber(s, v < 0, u, INT32_LEN);
  }

  method AppendLongStr(s: Buffer, v: int)
    requires s.Valid() && InWidth(64, true, v)
    modifies s.Repr
    ensures s.Valid() && fresh(s.Repr - old(s.Repr)) && s.Contents() == old(s.Contents()) + Text(v)
  {
    hide Pow10, Digits;
    BufferSizes();
    var u := Magnitude(v, TWO_TO_THE_64);
    AppendNumber(s, v < 0, u, INT64_LEN);
  }

  method AppendUint32Str(s: Buffer, v: u32)
    requires s.Valid()
    modifies s.Repr
    ensures s.Valid() && fresh(s.Repr - old(s.Repr)) && s.Contents() == old(s.Contents()) + Text(v)
  {
    hide Pow10, Digits;
    BufferSizes();
    AppendNumber(s, false, v, INT32_LEN);
  }

  method AppendUint64Str(s: Buffer, v: u64)
    requires s.Valid()
    modifies s.Repr
    ensures s.Valid() && fresh(s.Repr - old(s.Repr)) && s.Contents() == old(s.Contents()) + Text(v)
  {
    hide Pow10, Digits;
    BufferSizes();
    AppendNumber(s, false, v, INT64_LEN);
  }

  const TMP_LEN := 100

  /** Padded digits, cut to the formatter's buffer. */
  function Padded(u: nat, zero: byte, width: nat): bytes {
    var n := |Digits(u)|;
    var full := seq(if width > n then width - n else 0, _ => zero) + Digits(u);
    if |full| <= TMP_LEN then full else full[..TMP_LEN]
  }

  method SprintfNum(u: u64, zero: byte, width: nat) returns (out: bytes)
    ensures out == Padded(u, zero, width)
  {
    hide Pow10, Digits;
    BufferSizes();
    var temp := new byte[INT64_LEN](_ => 0);
    var p := WriteBackwards(u, temp);
    var digits := temp[p..];
    out := [];
    var len := |digits|;
    while len < width && |out| < TMP_LEN
      invariant |digits| <= len && |out| <= TMP_LEN
      invariant len == |digits| + |out| && (width <= len ==> |out| == if width > |digits| then width - |digits| else 0)
      invariant forall i :: 0 <= i < |out| ==> out[i] == zero
    {
      len := len + 1;
      out := out + [zero];
    }
    var room := TMP_LEN - |out|;
    out := out + if |digits| > room then digits[..room] else digits;
  }

  /** `%d` and `%l`, the path arrays are printed by: the same digits as the scalar printers'. */
  method FormatSigned(s: Buffer, v: int)
    requires s.Valid() && InWidth(64, true, v)
    modifies s.Repr
    ensures s.Valid() && fresh(s.Repr - old(s.Repr)) && s.Contents() == old(s.Contents()) + Text(v)
  {
    hide Pow10, Digits;
    var u := v;
    if v < 0 {
      s.AppendOf([MINUS]);
      u := Magnitude(v, TWO_TO_THE_64);
    }
    var tmp := SprintfNum(u, 32, 0);
    UnpaddedIsDigits(u);
    s.AppendOf(tmp);
    Regroup(old(s.Contents()), [MINUS], tmp);
  }

  lemma {:induction false} UnpaddedIsDigits(u: u64)
    ensures Padded(u, 32, 0) == Digits(u)
  {
    hide Digits, Pow10;
    BufferSizes();
    DigitsFit(u, INT64_LEN);
    assert seq(0, _ => 32) + Digits(u) == Digits(u);
  }

  // ----- Reading -----

  /** The number its digits spell. */
  function Spelled(s: bytes): nat
    requires forall c :: c in s ==> IsDigit(c)
  {
    if s == [] then 0
    else
      assert IsDigit(s[|s| - 1]);
      var last: int := s[|s| - 1];
      Spelled(s[..|s| - 1]) * 10 + (last - 48)
  }

  predicate AllDigits(s: bytes) {
    s != [] && forall c :: c in s ==> IsDigit(c)
  }

  /** The number an integer token spells; a lone sign spells none. */
  function TokenValue(s: bytes): Option<int> {
    if AllDigits(s) then Some(Spelled(s))
    else if s != [] && s[0] == MINUS && AllDigits(s[1..]) then Some(-(Spelled(s[1..]) as int))
    else None
  }

  function Clamp(v: int, lo: int, hi: int): int
    requires lo <= hi
  {
    if v < lo then lo else if v > hi then hi else v
  }

  /** strtol or strtoul clamps to 64 bits; then the field's own width is checked. */
  function ReadInt(bits: nat, signed: bool, token: bytes): Option<int> {
    match TokenValue(token)
    case None => None
    case Some(v) =>
      if signed then
        var c := Clamp(v, -TWO_TO_THE_63, TWO_TO_THE_63 - 1);
        if InWidth(bits, true, c) then Some(c) else None
      else if token[0] == MINUS then None
      else
        var c := Clamp(v, 0, TWO_TO_THE_64 - 1);
        if InWidth(bits, false, c) then Some(c) else None
  }

  lemma {:induction false} SpelledDigits(n: nat)
    ensures Spelled(Digits(n)) == n
  {
    var s := Digits(n);
    if n < 10 {
      assert s[..0] == [] && Spelled(s[..0]) == 0;
    } else {
      assert s[..|s| - 1] == Digits(n / 10);
      SpelledDigits(n / 10);
    }
  }

  lemma {:induction false} TextSpells(v: int)
    ensures TokenValue(Text(v)) == Some(v)
  {
    hide Digits, Spelled;
    SpelledDigits(if v < 0 then -v else v);
    if v < 0 {
      assert Text(v)[1..] == Digits(-v) && !IsDigit(MINUS) && Text(v)[0] == MINUS;
    }
  }

  /** Every value of a field's width is read back from its text. */
  lemma {:induction false} ReadsBack(bits: nat, signed: bool, v: int)
    requires bits in {8, 16, 32, 64} && InWidth(bits, signed, v)
    ensures ReadInt(bits, signed, Text(v)) == Some(v)
  {
    hide Digits, TokenValue;
    TextSpells(v);
    if v >= 0 { assert Text(v)[0] in Digits(v) && !IsDigit(MINUS); }
  }

  /** A value too wide is refused, except that a 64-bit field takes the nearest it can hold. */
  lemma {:induction false} WideValuesAreClamped(bits: nat, signed: bool, v: int)
    requires bits in {8, 16, 32, 64} && !InWidth(bits, signed, v)
    ensures ReadInt(bits, signed, Text(v)).Some? <==> bits == 64 && (signed || v >= 0)
    ensures bits == 64 && signed ==>
              ReadInt(bits, signed, Text(v)) == Some(if v < 0 then -TWO_TO_THE_63 else TWO_TO_THE_63 - 1)
    ensures bits == 64 && !signed && v >= 0 ==> ReadInt(bits, signed, Text(v)) == Some(TWO_TO_THE_64 - 1)
  {
    hide Digits, TokenValue;
    TextSpells(v);
    if v >= 0 { assert Text(v)[0] in Digits(v) && !IsDigit(MINUS); }
  }

  // ----- As a token -----

  /** What may follow a number without becoming part of it. */
  predicate EndsNumber(s: bytes) {
    s == [] || !(IsDigit(s[0]) || s[0] == DOT || s[0] == 101 || s[0] == 69)
  }

  /** The tokenizer takes the whole text, and nothing more, for one integer. */
  lemma {:induction false} TextIsOneToken(v: int, rest: bytes)
    requires EndsNumber(rest)
    ensures Next(Text(v) + rest) == Lexeme(Int, Text(v), rest)
  {
    hide Digits, DigitsEnd;
    var s := Text(v) + rest;
    var n := |Text(v)|;
    assert s[0] == Text(v)[0] && (v < 0 ==> s[0] == MINUS) && (v >= 0 ==> s[0] in Digits(v));
    assert SkipGap(s) == s;
    forall k | 1 <= k < n ensures IsDigit(s[k]) {
      assert s[k] == Text(v)[k] && s[k] in Digits(if v < 0 then -v else v);
    }
    RunEndsAt(s, 1, n);
    assert s[..n] == Text(v) && s[n..] == rest;
  }

  lemma {:induction false} RunEndsAt(s: bytes, i: nat, n: nat)
    requires i <= n <= |s| && (forall k :: i <= k < n ==> IsDigit(s[k])) && (n < |s| ==> !IsDigit(s[n]))
    ensures DigitsEnd(s, i) == n
    decreases n - i
  {
    if i < n { RunEndsAt(s, i + 1, n); }
  }
}
