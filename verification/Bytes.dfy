/** Octets and the big-endian integers both binary formats put on the wire. */
module Bytes {
  type byte = x: int | 0 <= x < 256
  type bytes = seq<byte>

  const TWO_TO_THE_8 := 0x100
  const TWO_TO_THE_16 := 0x1_0000
  const TWO_TO_THE_31 := 0x8000_0000
  const TWO_TO_THE_32 := 0x1_0000_0000
  const TWO_TO_THE_63 := 0x8000_0000_0000_0000
  const TWO_TO_THE_64 := 0x1_0000_0000_0000_0000

  type u32 = x: int | 0 <= x < TWO_TO_THE_32
  type u64 = x: int | 0 <= x < TWO_TO_THE_64

  datatype Option<+T> = None | Some(value: T)

  /** The outcome of reading a value from the front of some bytes. */
  datatype Res<+T> = Ok(val: T, rest: bytes) | Err

  /** The outcome of skipping an item: a failed skip still leaves the reader somewhere. */
  datatype SkipR = SkipR(ok: bool, rest: bytes)

  /** The `w` low-order octets of `v`, most significant first. */
  function BE(v: nat, w: nat): (s: bytes)
    ensures |s| == w
  {
    if w == 0 then [] else BE(v / 256, w - 1) + [v % 256]
  }

  function FromBE(s: bytes): nat {
    if s == [] then 0 else FromBE(s[..|s| - 1]) * 256 + s[|s| - 1]
  }

  function Pow256(w: nat): (p: nat)
    ensures p > 0
  {
    if w == 0 then 1 else 256 * Pow256(w - 1)
  }

  lemma {:induction false} Pow256Values()
    ensures Pow256(1) == TWO_TO_THE_8 && Pow256(2) == TWO_TO_THE_16
    ensures Pow256(4) == TWO_TO_THE_32 && Pow256(8) == TWO_TO_THE_64
  {
    assert Pow256(2) == 256 * Pow256(1);
    assert Pow256(4) == 256 * 256 * Pow256(2);
    assert Pow256(6) == 256 * 256 * Pow256(4);
    assert Pow256(8) == 256 * 256 * Pow256(6);
  }

  lemma {:induction false} FromBEOfBE(v: nat, w: nat)
    requires v < Pow256(w)
    ensures FromBE(BE(v, w)) == v
  {
    if w > 0 {
      FromBEOfBE(v / 256, w - 1);
      assert BE(v, w)[..w - 1] == BE(v / 256, w - 1);
    }
  }

  lemma {:induction false} FromBEBound(s: bytes)
    ensures FromBE(s) < Pow256(|s|)
  {
    if s != [] {
      FromBEBound(s[..|s| - 1]);
    }
  }

  lemma {:induction false} BEOfFromBE(s: bytes)
    ensures BE(FromBE(s), |s|) == s
  {
    if s != [] {
      BEOfFromBE(s[..|s| - 1]);
      assert s == s[..|s| - 1] + [s[|s| - 1]];
    }
  }

  // ----- Sequences and sets -----

  function Repeat<T>(n: nat, x: T): (s: seq<T>)
    ensures |s| == n && forall i :: 0 <= i < n ==> s[i] == x
  {
    seq(n, _ => x)
  }

  lemma {:induction false} Regroup(a: bytes, b: bytes, c: bytes)
    ensures a + b + c == a + (b + c)
  {
  }

  predicate NoRepeats<T(==)>(s: seq<T>) {
    forall i, j :: 0 <= i < j < |s| ==> s[i] != s[j]
  }

  function SetOf<T>(s: seq<T>): set<T> {
    set x | x in s
  }

  lemma {:induction false} DistinctCount<T>(s: seq<T>)
    requires NoRepeats(s)
    ensures |SetOf(s)| == |s|
  {
    if s != [] {
      DistinctCount(s[1..]);
      assert SetOf(s) == {s[0]} + SetOf(s[1..]);
    }
  }

  lemma {:induction false} SubsetCount<T>(a: set<T>, b: set<T>)
    requires a <= b
    ensures |a| <= |b| && (|a| == |b| ==> a == b)
  {
    assert b == a + (b - a);
  }
}
