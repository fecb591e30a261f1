/** The string buffer every writer appends to: inline up to 25 bytes, on the heap beyond. */
module Sstr {
  import opened Bytes

  const SHORT_STR_CAPACITY := 25
  const CAP_ADD_DELTA := 256

  /** memcpy into `dst` at `off`. */
  method Copy(dst: array<byte>, off: nat, src: bytes)
    requires off + |src| <= dst.Length
    modifies dst
    ensures dst[..off] == old(dst[..off]) && dst[off..off + |src|] == src
    ensures dst[off + |src|..] == old(dst[off + |src|..])
  {
    for i := 0 to |src|
      invariant dst[..off] == old(dst[..off]) && dst[off..off + i] == src[..i]
      invariant dst[off + |src|..] == old(dst[off + |src|..])
    {
      dst[off + i] := src[i];
      assert dst[off..off + i + 1] == src[..i] + [src[i]];
    }
  }

  /** Puts `src` behind the first `off` bytes, and a NUL behind that. */
  method Put(dst: array<byte>, off: nat, src: bytes)
    requires off + |src| < dst.Length
    modifies dst
    ensures dst[..off + |src|] == old(dst[..off]) + src && dst[off + |src|] == 0
  {
    Copy(dst, off, src);
    dst[off + |src|] := 0;
    assert dst[..off + |src|] == dst[..off] + dst[off..off + |src|];
  }

  /** `short` and `data` overlap in the original; here only the one `isLong` selects has a meaning. */
  class Buffer {
    var length: nat
    var isLong: bool
    const short: array<byte>
    var data: array?<byte>
    var capacity: nat
    ghost var Repr: set<object>

    /** A heap buffer may be missing, after a clear; a NUL follows the content whenever there is a buffer. */
    ghost predicate Valid()
      reads this, Repr
      ensures Valid() ==> this in Repr
    {
      && this in Repr && short in Repr && short.Length == SHORT_STR_CAPACITY + 1
      && (!isLong ==> length <= SHORT_STR_CAPACITY && short[length] == 0)
      && length <= (if isLong then capacity else SHORT_STR_CAPACITY)
      && (isLong && data == null ==> length == 0 && capacity == 0)
      && (isLong && data != null ==>
            data in Repr && data != short && capacity <= data.Length && length < data.Length && data[length] == 0)
    }

    ghost function Contents(): (s: bytes)
      reads this, Repr
      requires Valid()
      ensures |s| == length
    {
      if !isLong then short[..length]
      else if data == null then []
      else data[..length]
    }

    constructor ()
      ensures Valid() && HasBuffer() && fresh(Repr) && Contents() == []
    {
      length, isLong, data, capacity := 0, false, null, 0;
      short := new byte[SHORT_STR_CAPACITY + 1](_ => 0);
      new;
      Repr := {this, short};
    }

    constructor Of(src: bytes)
      ensures Valid() && fresh(Repr) && Contents() == src
    {
      length, isLong, data, capacity := |src|, |src| > SHORT_STR_CAPACITY, null, 0;
      short := new byte[SHORT_STR_CAPACITY + 1](_ => 0);
      new;
      Repr := {this, short};
      if |src| <= SHORT_STR_CAPACITY {
        Put(short, 0, src);
      } else {
        var d := new byte[|src| + 1](_ => 0);
        Put(d, 0, src);
        data, capacity := d, |src|;
        Repr := Repr + {d};
      }
    }

    /** A heap buffer of `size` bytes that starts with the present content. */
    method Grow(size: nat) returns (d: array<byte>)
      requires Valid() && length <= size
      ensures fresh(d) && d.Length == size && d[..length] == Contents()
    {
      d := new byte[size](_ => 0);
      if !isLong {
        Copy(d, 0, short[..length]);
      } else if data != null {
        Copy(d, 0, data[..length]);
      }
      assert d[..length] == d[0..0 + length];
    }

    method AppendOf(src: bytes)
      requires Valid()
      modifies Repr
      ensures Valid() && HasBuffer() && fresh(Repr - old(Repr))
      ensures Contents() == old(Contents()) + src
    {
      var newLen := length + |src|;
      if !isLong && newLen <= SHORT_STR_CAPACITY {
        Put(short, length, src);
        length := newLen;
      } else if isLong && capacity - length > |src| {
        Put(data, length, src);
        length := newLen;
      } else {
        var d := Grow(newLen + CAP_ADD_DELTA + 1);
        Put(d, length, src);
        capacity := if isLong then newLen + CAP_ADD_DELTA + 1 else newLen + CAP_ADD_DELTA;
        data, isLong, length := d, true, newLen;
        Repr := Repr + {d};
      }
    }

    /** Appends `n` zero bytes. */
    method AppendZero(n: nat)
      requires Valid()
      modifies Repr
      ensures Valid() && fresh(Repr - old(Repr))
      ensures Contents() == old(Contents()) + Zeros(n)
    {
      var newLen := length + n;
      if !isLong && newLen <= SHORT_STR_CAPACITY {
        Put(short, length, Zeros(n));
        length := newLen;
      } else if isLong && capacity - length > n {
        Put(data, length, Zeros(n));
        length := newLen;
      } else {
        var d := Grow(newLen + CAP_ADD_DELTA + 1);
        Put(d, length, Zeros(n));
        capacity := if isLong then newLen + CAP_ADD_DELTA + 1 else newLen + CAP_ADD_DELTA;
        data, isLong, length := d, true, newLen;
        Repr := Repr + {d};
      }
    }

    /** The content as a value, for a reader over it. */
    method Bytes() returns (s: bytes)
      requires Valid()
      ensures s == Contents()
    {
      s := if !isLong then short[..length] else if data == null then [] else data[..length];
    }

    method At(i: nat) returns (b: byte)
      requires Valid() && i < length
      ensures b == Contents()[i]
    {
      if isLong { b := data[i]; } else { b := short[i]; }
    }

    /** There is a buffer to write the NUL of an empty string into. */
    ghost predicate HasBuffer()
      reads this
    {
      isLong ==> data != null
    }

    /** Keeps a heap buffer for what is appended next. */
    method ClearFast()
      requires Valid() && HasBuffer()
      modifies Repr
      ensures Valid() && HasBuffer() && Repr == old(Repr) && Contents() == []
    {
      length := 0;
      if isLong { data[0] := 0; } else { short[0] := 0; }
    }

    method Clear()
      requires Valid()
      modifies this, short
      ensures Valid() && Repr == old(Repr) && Contents() == []
    {
      length := 0;
      if isLong {
        data, capacity := null, 0;
      } else {
        short[0] := 0;
      }
    }
  }

  function Zeros(n: nat): (s: bytes)
    ensures |s| == n && forall i :: 0 <= i < n ==> s[i] == 0
  {
    seq(n, _ => 0)
  }

  // ----- Whole runs -----

  datatype Op = Append(src: bytes) | Fill(n: nat) | Reset

  function After(s: bytes, ops: seq<Op>): bytes
    decreases |ops|
  {
    if ops == [] then s
    else
      match ops[0]
      case Append(src) => After(s + src, ops[1..])
      case Fill(n) => After(s + Zeros(n), ops[1..])
      case Reset => After([], ops[1..])
  }

  /** Any run of operations leaves what the same run leaves of a byte sequence. */
  method Run(b: Buffer, ops: seq<Op>)
    requires b.Valid()
    modifies b.Repr
    ensures b.Valid() && fresh(b.Repr - old(b.Repr))
    ensures b.Contents() == After(old(b.Contents()), ops)
  {
    for i := 0 to |ops|
      invariant b.Valid() && fresh(b.Repr - old(b.Repr))
      invariant After(b.Contents(), ops[i..]) == After(old(b.Contents()), ops)
    {
      assert ops[i..][0] == ops[i] && ops[i..][1..] == ops[i + 1..];
      match ops[i]
      case Append(src) => b.AppendOf(src);
      case Fill(n) => b.AppendZero(n);
      case Reset => b.Clear();
    }
  }

  // ----- Comparison -----

  /** Lexicographic order of octets. */
  predicate Less(a: bytes, b: bytes) {
    b != [] && (a == [] || a[0] < b[0] || (a[0] == b[0] && Less(a[1..], b[1..])))
  }

  lemma {:induction false} LessAfterPrefix(a: bytes, b: bytes, n: nat)
    requires n <= |a| && n <= |b| && a[..n] == b[..n]
    ensures Less(a, b) <==> Less(a[n..], b[n..])
  {
    if n > 0 {
      assert a[0] == a[..n][0] && b[0] == b[..n][0];
      assert a[1..][..n - 1] == a[..n][1..] && b[1..][..n - 1] == b[..n][1..];
      LessAfterPrefix(a[1..], b[1..], n - 1);
      assert a[1..][n - 1..] == a[n..] && b[1..][n - 1..] == b[n..];
    } else {
      assert a[0..] == a && b[0..] == b;
    }
  }

  lemma {:induction false} FirstDifferenceDecides(a: bytes, b: bytes, n: nat)
    requires n < |a| && n < |b| && a[..n] == b[..n] && a[n] != b[n]
    ensures Less(a, b) <==> a[n] < b[n]
  {
    LessAfterPrefix(a, b, n);
  }

  /** A proper prefix comes first. */
  lemma {:induction false} PrefixDecides(a: bytes, b: bytes)
    requires a <= b
    ensures Less(a, b) <==> |a| < |b|
    ensures !Less(b, a)
  {
    LessAfterPrefix(a, b, |a|);
    LessAfterPrefix(b, a, |a|);
  }

  /** Exactly one of less, equal and greater. */
  lemma {:induction false} LessIsTotal(a: bytes, b: bytes)
    ensures Less(a, b) || Less(b, a) || a == b
    ensures !(Less(a, b) && Less(b, a)) && !Less(a, a)
    decreases |a| + |b|
  {
    if a != [] && b != [] {
      LessIsTotal(a[1..], b[1..]);
      assert a == [a[0]] + a[1..] && b == [b[0]] + b[1..];
    }
    if a != [] {
      LessIsIrreflexive(a);
    }
  }

  lemma {:induction false} LessIsIrreflexive(a: bytes)
    ensures !Less(a, a)
  {
    if a != [] {
      LessIsIrreflexive(a[1..]);
    }
  }

  lemma {:induction false} LessIsTransitive(a: bytes, b: bytes, c: bytes)
    requires Less(a, b) && Less(b, c)
    ensures Less(a, c)
  {
    if a != [] && a[0] == b[0] == c[0] {
      LessIsTransitive(a[1..], b[1..], c[1..]);
    }
  }

  /** The sign of the result orders the contents; a missing string comes before every other. */
  method Compare(a: Buffer?, b: Buffer?) returns (r: int)
    requires (a != null ==> a.Valid()) && (b != null ==> b.Valid())
    ensures a == null || b == null ==> r == (if a == null && b == null then 0 else if a == null then -1 else 1)
    ensures a != null && b != null ==>
              && (r < 0 <==> Less(a.Contents(), b.Contents()))
              && (r == 0 <==> a.Contents() == b.Contents())
              && (r > 0 <==> Less(b.Contents(), a.Contents()))
  {
    hide Less;
    if a == null && b == null { return 0; }
    if a == null { return -1; }
    if b == null { return 1; }
    var minLen := if a.length > b.length then b.length else a.length;
    r := Memcmp(a, b, minLen);
    Decides(a.Contents(), b.Contents(), minLen, r);
    if r == 0 && a.length != b.length {
      return if a.length > b.length then 1 else -1;
    }
  }

  /** What the first difference, or its absence, says about the whole contents. */
  lemma {:induction false} Decides(x: bytes, y: bytes, n: nat, r: int)
    requires n == if |x| > |y| then |y| else |x|
    requires r == 0 ==> x[..n] == y[..n]
    requires r != 0 ==> DiffersAt(x, y, n, r)
    ensures r == 0 ==> (Less(x, y) <==> |x| < |y|) && (Less(y, x) <==> |y| < |x|) && (x == y <==> |x| == |y|)
    ensures r != 0 ==> (Less(x, y) <==> r < 0) && (Less(y, x) <==> r > 0) && x != y
  {
    hide Less;
    if r == 0 {
      if |x| <= |y| { PrefixDecides(x, y); } else { PrefixDecides(y, x); }
      LessIsTotal(x, y);
    } else {
      var i :| 0 <= i < n && x[..i] == y[..i] && x[i] != y[i] && (r < 0 <==> x[i] < y[i]);
      FirstDifferenceDecides(x, y, i);
      FirstDifferenceDecides(y, x, i);
    }
  }

  ghost predicate DiffersAt(x: bytes, y: bytes, n: nat, r: int)
    requires n <= |x| && n <= |y|
  {
    exists i :: 0 <= i < n && x[..i] == y[..i] && x[i] != y[i] && (r < 0 <==> x[i] < y[i])
  }

  /** memcmp over the first `n` octets. */
  method Memcmp(a: Buffer, b: Buffer, n: nat) returns (r: int)
    requires a.Valid() && b.Valid() && n <= a.length && n <= b.length
    ensures r == 0 ==> a.Contents()[..n] == b.Contents()[..n]
    ensures r != 0 ==> DiffersAt(a.Contents(), b.Contents(), n, r)
  {
    for i := 0 to n
      invariant a.Contents()[..i] == b.Contents()[..i]
    {
      var p: int := a.At(i);
      var q: int := b.At(i);
      if p != q { return p - q; }
    }
    r := 0;
  }
}
