/** UTF-8 as section 3 of RFC 3629 defines it, and the encoding loop of the escape decoder. */
module Utf8 {
  import opened Bytes

  /** A Unicode scalar value: any code point but a surrogate. */
  predicate Scalar(cp: int) {
    0 <= cp < 0xD800 || 0xE000 <= cp <= 0x10FFFF
  }

  predicate Continuation(b: byte) {
    0x80 <= b < 0xC0
  }

  /** Six bits dropped `n` times. */
  function Shifted(cp: nat, n: nat): (r: nat)
    ensures n > 0 ==> r <= cp / 64
  {
    if n == 0 then cp else Shifted(cp / 64, n - 1)
  }

  /** The continuation octet for the six bits that follow the first `6 * n` from the right. */
  function Tail(cp: nat, n: nat): (b: byte)
    ensures Continuation(b)
  {
    0x80 + Shifted(cp, n) % 64
  }

  function Length(cp: nat): (n: nat)
    ensures 1 <= n <= 4
  {
    if cp < 0x80 then 1 else if cp < 0x800 then 2 else if cp < 0x1_0000 then 3 else 4
  }

  function Encode(cp: nat): (s: bytes)
    requires cp <= 0x10FFFF
    ensures |s| == Length(cp)
  {
    if cp < 0x80 then [cp]
    else if cp < 0x800 then [0xC0 + cp / 64, Tail(cp, 0)]
    else if cp < 0x1_0000 then [0xE0 + cp / 64 / 64, Tail(cp, 1), Tail(cp, 0)]
    else [0xF0 + cp / 64 / 64 / 64, Tail(cp, 2), Tail(cp, 1), Tail(cp, 0)]
  }

  /** Six more bits behind those of `v`. */
  function Join(v: int, b: int): int {
    v * 64 + (b - 0x80)
  }

  /** The strict decoder: no overlong form, no surrogate, nothing above U+10FFFF. */
  function Decode(s: bytes): Option<(int, bytes)> {
    if |s| >= 1 && s[0] < 0x80 then Accept(s[0], 0, s[1..])
    else if |s| >= 2 && 0xC0 <= s[0] < 0xE0 && Continuation(s[1]) then
      Accept(Join((s[0] as int) - 0xC0, s[1]), 0x80, s[2..])
    else if |s| >= 3 && 0xE0 <= s[0] < 0xF0 && Continuation(s[1]) && Continuation(s[2]) then
      Accept(Join(Join((s[0] as int) - 0xE0, s[1]), s[2]), 0x800, s[3..])
    else if |s| >= 4 && 0xF0 <= s[0] < 0xF8 && Continuation(s[1]) && Continuation(s[2]) && Continuation(s[3]) then
      Accept(Join(Join(Join((s[0] as int) - 0xF0, s[1]), s[2]), s[3]), 0x1_0000, s[4..])
    else None
  }

  function Accept(cp: int, least: int, rest: bytes): Option<(int, bytes)> {
    if cp >= least && Scalar(cp) then Some((cp, rest)) else None
  }

  /** What is encoded decodes to itself, and only an encoding decodes. */
  lemma {:induction false} DecodesExactlyEncodings(cp: nat, s: bytes, rest: bytes)
    requires Scalar(cp)
    ensures Decode(s) == Some((cp, rest)) <==> s == Encode(cp) + rest
  {
    DecodeOfEncode(cp, rest);
    if Decode(s) == Some((cp, rest)) { EncodeOfDecode(s, cp, rest); }
  }

  lemma {:induction false} DecodeOfEncode(cp: nat, rest: bytes)
    requires Scalar(cp)
    ensures Decode(Encode(cp) + rest) == Some((cp, rest))
  {
    hide Tail, Shifted, Join;
    var s := Encode(cp) + rest;
    assert s[Length(cp)..] == rest;
    Rejoined(cp, 0);
    Rejoined(cp, 1);
    Rejoined(cp, 2);
    ShiftsUnfold(cp);
  }

  /** The bits above and the six taken make the whole again. */
  lemma {:induction false} Rejoined(cp: nat, n: nat)
    ensures Join(Shifted(cp, n + 1), Tail(cp, n)) == Shifted(cp, n)
    decreases n
  {
    if n > 0 { Rejoined(cp / 64, n - 1); }
  }

  lemma {:induction false} ShiftsUnfold(cp: nat)
    ensures Shifted(cp, 0) == cp && Shifted(cp, 1) == cp / 64
    ensures Shifted(cp, 2) == cp / 64 / 64 && Shifted(cp, 3) == cp / 64 / 64 / 64
  {
    assert Shifted(cp / 64 / 64, 1) == Shifted(cp / 64 / 64 / 64, 0);
    assert Shifted(cp / 64, 2) == Shifted(cp / 64 / 64, 1);
    assert Shifted(cp / 64, 1) == Shifted(cp / 64 / 64, 0);
  }

  lemma {:induction false} EncodeOfDecode(s: bytes, cp: nat, rest: bytes)
    requires Decode(s) == Some((cp, rest))
    ensures Scalar(cp) && s == Encode(cp) + rest
  {
    hide Encode, Tail, Join;
    assert s == [s[0]] + s[1..];
    if s[0] < 0x80 {
      OneOctet(s[0]);
    } else if s[0] < 0xE0 {
      assert s == [s[0], s[1]] + s[2..];
      TwoOctets(s[0], s[1], cp);
    } else if s[0] < 0xF0 {
      assert s == [s[0], s[1], s[2]] + s[3..];
      ThreeOctets(s[0], s[1], s[2], cp);
    } else {
      assert s == [s[0], s[1], s[2], s[3]] + s[4..];
      FourOctets(s[0], s[1], s[2], s[3], cp);
    }
  }

  lemma {:induction false} OneOctet(a: byte)
    requires a < 0x80
    ensures Encode(a) == [a]
  {
  }

  lemma {:induction false} TwoOctets(a: byte, b: byte, cp: nat)
    requires 0xC0 <= a < 0xE0 && Continuation(b) && cp == Join((a as int) - 0xC0, b) && cp >= 0x80
    ensures cp <= 0x10FFFF && Encode(cp) == [a, b]
  {
    hide Tail;
    TakenApart((a as int) - 0xC0, b);
  }

  lemma {:induction false} ThreeOctets(a: byte, b: byte, c: byte, cp: nat)
    requires 0xE0 <= a < 0xF0 && Continuation(b) && Continuation(c) && cp == Join(Join((a as int) - 0xE0, b), c) && cp >= 0x800
    ensures cp <= 0x10FFFF && Encode(cp) == [a, b, c]
  {
    hide Tail;
    TakenApart((a as int) - 0xE0, b);
    TakenApart(Join((a as int) - 0xE0, b), c);
  }

  lemma {:induction false} FourOctets(a: byte, b: byte, c: byte, d: byte, cp: nat)
    requires 0xF0 <= a < 0xF8 && Continuation(b) && Continuation(c) && Continuation(d)
    requires cp == Join(Join(Join((a as int) - 0xF0, b), c), d) && 0x1_0000 <= cp <= 0x10FFFF
    ensures Encode(cp) == [a, b, c, d]
  {
    hide Tail;
    TakenApart((a as int) - 0xF0, b);
    TakenApart(Join((a as int) - 0xF0, b), c);
    TakenApart(Join(Join((a as int) - 0xF0, b), c), d);
  }

  lemma {:induction false} TakenApart(v: nat, b: byte)
    requires Continuation(b)
    ensures Join(v, b) / 64 == v && Tail(Join(v, b), 0) == b
    ensures forall n: nat :: Tail(Join(v, b), n + 1) == Tail(v, n)
  {
  }

  /** Continuation octets from the last to the second, then the first; bits that cannot overlap are added. */
  method EncodeInto(codepoint: nat) returns (out: bytes)
    requires codepoint <= 0x10FFFF
    ensures out == Encode(codepoint)
  {
    hide Shifted, Encode, Tail;
    var cp := codepoint;
    var length, mark := 1, 0;
    if cp < 0x80 {
    } else if cp < 0x800 {
      length, mark := 2, 0xC0;
    } else if cp < 0x1_0000 {
      length, mark := 3, 0xE0;
    } else {
      length, mark := 4, 0xF0;
    }
    var output := new byte[4](_ => 0);
    var position := length - 1;
    ShiftsUnfold(cp);
    while position > 0
      invariant 0 <= position < length
      invariant cp == Shifted(codepoint, length - 1 - position)
      invariant forall k :: position < k < length ==> output[k] == Tail(codepoint, length - 1 - k)
    {
      output[position] := 0x80 + cp % 64;
      TailIs(codepoint, length - 1 - position);
      ShiftedOnce(codepoint, length - 1 - position);
      cp := cp / 64;
      position := position - 1;
    }
    FirstFits(codepoint);
    output[0] := if length > 1 then mark + cp else cp % 128;
    out := output[..length];
    EncodedByTails(codepoint, mark, out);
  }

  lemma {:induction false} TailIs(cp: nat, n: nat)
    ensures Tail(cp, n) == 0x80 + Shifted(cp, n) % 64
  {
  }

  /** The bits left for the first octet fit under its mark. */
  lemma {:induction false} FirstFits(cp: nat)
    requires cp <= 0x10FFFF
    ensures Length(cp) == 2 ==> Shifted(cp, 1) < 0x20
    ensures Length(cp) == 3 ==> Shifted(cp, 2) < 0x10
    ensures Length(cp) == 4 ==> Shifted(cp, 3) < 0x08
  {
    hide Shifted;
    ShiftsUnfold(cp);
  }

  lemma {:induction false} EncodedByTails(cp: nat, mark: nat, out: bytes)
    requires cp <= 0x10FFFF && |out| == Length(cp)
    requires mark == if Length(cp) == 1 then 0 else if Length(cp) == 2 then 0xC0 else if Length(cp) == 3 then 0xE0 else 0xF0
    requires out[0] == mark + Shifted(cp, Length(cp) - 1)
    requires forall k :: 0 < k < Length(cp) ==> out[k] == Tail(cp, Length(cp) - 1 - k)
    ensures out == Encode(cp)
  {
    hide Shifted, Tail;
    ShiftsUnfold(cp);
  }

  lemma {:induction false} ShiftedOnce(cp: nat, n: nat)
    ensures Shifted(cp, n + 1) == Shifted(cp, n) / 64
    decreases n
  {
    if n > 0 { ShiftedOnce(cp / 64, n - 1); }
  }
}
