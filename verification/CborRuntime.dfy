/** The CBOR runtime as it runs: writers append to a buffer, readers move a cursor. */
module CborRuntime {
  import opened Bytes
  import opened Floats
  import opened Runtime
  import opened Sstr
  import Cbor

  method EncodeHead(out: Buffer, major: nat, val: u64)
    requires out.Valid() && major < 8
    modifies out.Repr
    ensures out.Valid() && fresh(out.Repr - old(out.Repr))
    ensures out.Contents() == old(out.Contents()) + Cbor.Head(major, val)
  {
    var hdr := major * 32;
    if val <= 23 {
      out.AppendOf([hdr + val]);
    } else if val <= 0xff {
      out.AppendOf([hdr + 24, val]);
    } else if val <= 0xffff {
      out.AppendOf([hdr + 25] + BE(val, 2));
    } else if val <= 0xffff_ffff {
      out.AppendOf([hdr + 26] + BE(val, 4));
    } else {
      out.AppendOf([hdr + 27] + BE(val, 8));
    }
  }

  method PackInt(out: Buffer, v: int)
    requires out.Valid() && -TWO_TO_THE_63 <= v < TWO_TO_THE_63
    modifies out.Repr
    ensures out.Valid() && fresh(out.Repr - old(out.Repr))
    ensures out.Contents() == old(out.Contents()) + Cbor.EncInt(v)
  {
    if v >= 0 {
      EncodeHead(out, Cbor.MAJOR_UINT, v);
    } else {
      EncodeHead(out, Cbor.MAJOR_NINT, -(v + 1));
    }
  }

  method PackStr(out: Buffer, s: bytes)
    requires out.Valid()
    modifies out.Repr
    ensures out.Valid() && fresh(out.Repr - old(out.Repr))
    ensures out.Contents() == old(out.Contents()) + Cbor.EncStr(s)
  {
    var len := |s| % TWO_TO_THE_32;
    ghost var was := out.Contents();
    EncodeHead(out, Cbor.MAJOR_TSTR, len);
    if len > 0 {
      out.AppendOf(s[..len]);
    }
    assert out.Contents() == was + (Cbor.Head(Cbor.MAJOR_TSTR, len) + s[..len]);
  }

  method DecodeHead(r: Reader) returns (ok: bool, major: nat, val: u64)
    requires r.Valid()
    modifies r`pos
    ensures r.Valid()
    ensures match Cbor.DecodeHead(old(r.Rest()))
            case HeadOk(m, v, rest) => ok && major == m && val == v && r.Rest() == rest
            case HeadErr(rest) => !ok && r.Rest() == rest
  {
    ghost var s := r.Rest();
    major, val := 0, 0;
    if r.pos >= |r.data| { return false, major, val; }
    var ib := r.data[r.pos];
    r.pos := r.pos + 1;
    major := ib / 32;
    var ai := ib % 32;
    if ai <= 23 {
      return true, major, ai;
    }
    if ai > 27 { return false, major, val; }
    var w := if ai == 24 then 1 else if ai == 25 then 2 else if ai == 26 then 4 else 8;
    if r.pos + w > |r.data| { return false, major, val; }
    assert s[1..1 + w] == r.data[r.pos..r.pos + w];
    FromBEBound(s[1..1 + w]);
    Pow256Values();
    val := FromBE(r.data[r.pos..r.pos + w]);
    r.pos := r.pos + w;
    ok := true;
  }

  /** Where a typed read leaves the cursor when it fails: back at a head of the wrong kind, or inside a broken one. */
  function PutBack(s: bytes): bytes {
    match Cbor.DecodeHead(s)
    case HeadErr(rest) => rest
    case HeadOk(_, _, _) => s
  }

  method UnpackStr(r: Reader) returns (ok: bool, out: bytes)
    requires r.Valid()
    modifies r`pos
    ensures r.Valid() && ok == Cbor.DecStr(old(r.Rest())).Ok?
    ensures ok ==> Cbor.DecStr(old(r.Rest())) == Ok(out, r.Rest())
    ensures !ok ==> r.Rest() == PutBack(old(r.Rest()))
  {
    var save := r.pos;
    var good, major, val := DecodeHead(r);
    out := [];
    if !good { return false, out; }
    if major != Cbor.MAJOR_TSTR || val > |r.data| - r.pos {
      r.pos := save;
      return false, out;
    }
    ghost var t := r.Rest();
    out := r.data[r.pos..r.pos + val % TWO_TO_THE_32];
    assert out == t[..val % TWO_TO_THE_32] && r.data[r.pos + val..] == t[val..];
    r.pos := r.pos + val;
    ok := true;
  }

  method UnpackHeader(r: Reader, want: nat) returns (ok: bool, count: nat)
    requires r.Valid()
    modifies r`pos
    ensures r.Valid() && ok == Cbor.DecHeader(want, old(r.Rest())).Ok?
    ensures ok ==> Cbor.DecHeader(want, old(r.Rest())) == Ok(count, r.Rest())
    ensures !ok ==> r.Rest() == PutBack(old(r.Rest()))
  {
    var save := r.pos;
    var good, major, val := DecodeHead(r);
    count := 0;
    if !good { return false, count; }
    if major != want {
      r.pos := save;
      return false, count;
    }
    return true, val % TWO_TO_THE_32;
  }

  method UnpackInt64(r: Reader) returns (ok: bool, v: int)
    requires r.Valid()
    modifies r`pos
    ensures r.Valid() && ok == Cbor.DecInt64(old(r.Rest())).Ok?
    ensures ok ==> Cbor.DecInt64(old(r.Rest())) == Ok(v, r.Rest())
    ensures !ok ==> r.Rest() == PutBack(old(r.Rest()))
  {
    var save := r.pos;
    var good, major, val := DecodeHead(r);
    v := 0;
    if !good { return false, v; }
    if major == Cbor.MAJOR_UINT && val < TWO_TO_THE_63 { return true, val; }
    if major == Cbor.MAJOR_NINT && val < TWO_TO_THE_63 { return true, -1 - val; }
    r.pos := save;
    ok := false;
  }

  method UnpackUint64(r: Reader) returns (ok: bool, v: int)
    requires r.Valid()
    modifies r`pos
    ensures r.Valid() && ok == Cbor.DecUint64(old(r.Rest())).Ok?
    ensures ok ==> Cbor.DecUint64(old(r.Rest())) == Ok(v, r.Rest())
    ensures !ok ==> r.Rest() == PutBack(old(r.Rest()))
  {
    var save := r.pos;
    var good, major, val := DecodeHead(r);
    v := 0;
    if !good { return false, v; }
    if major == Cbor.MAJOR_UINT { return true, val; }
    r.pos := save;
    ok := false;
  }

  method UnpackBool(r: Reader) returns (ok: bool, b: bool)
    requires r.Valid()
    modifies r`pos
    ensures r.Valid() && ok == Cbor.DecBool(old(r.Rest())).Ok?
    ensures ok ==> Cbor.DecBool(old(r.Rest())) == Ok(b, r.Rest())
    ensures !ok ==> r.Rest() == old(r.Rest())
  {
    b := false;
    if r.pos >= |r.data| { return false, b; }
    b := r.data[r.pos] == Cbor.TRUE;
    if !b && r.data[r.pos] != Cbor.FALSE { return false, b; }
    r.pos := r.pos + 1;
    ok := true;
  }

  method UnpackDouble(fp: FloatOps, r: Reader) returns (ok: bool, d: u64)
    requires r.Valid()
    modifies r`pos
    ensures r.Valid() && ok == Cbor.DecDouble(fp, old(r.Rest())).Ok?
    ensures ok ==> Cbor.DecDouble(fp, old(r.Rest())) == Ok(d, r.Rest())
    ensures !ok ==>
              var s := old(r.Rest());
              r.Rest() == if s != [] && (s[0] == Cbor.FLOAT64 || s[0] == Cbor.FLOAT32) then s[1..] else PutBack(s)
  {
    ghost var s := r.Rest();
    d := 0;
    if r.pos >= |r.data| { return false, d; }
    var ib := r.data[r.pos];
    if ib == Cbor.FLOAT64 || ib == Cbor.FLOAT32 {
      r.pos := r.pos + 1;
      var w := if ib == Cbor.FLOAT64 then 8 else 4;
      if r.pos + w > |r.data| { return false, d; }
      assert s[1..1 + w] == r.data[r.pos..r.pos + w];
      FromBEBound(s[1..1 + w]);
      Pow256Values();
      var u := FromBE(r.data[r.pos..r.pos + w]);
      r.pos := r.pos + w;
      return true, if ib == Cbor.FLOAT64 then u else fp.widen(u);
    }
    var save := r.pos;
    var good, major, val := DecodeHead(r);
    if !good { return false, d; }
    if major == Cbor.MAJOR_UINT { return true, fp.ofUnsigned(val); }
    if major == Cbor.MAJOR_NINT { return true, fp.ofNegative(val); }
    r.pos := save;
    ok := false;
  }

  /** The recursive skipper; on failure the cursor stays where the failing part began. */
  method Skip(r: Reader) returns (ok: bool)
    requires r.Valid()
    modifies r`pos
    ensures r.Valid()
    ensures SkipR(ok, r.Rest()) == Cbor.Skip(old(r.Rest()))
    decreases |r.data| - r.pos, 0
  {
    hide Cbor.DecodeHead, Cbor.SkipMany;
    var good, major, val := DecodeHead(r);
    if !good { return false; }
    if major == Cbor.MAJOR_BSTR || major == Cbor.MAJOR_TSTR {
      if r.pos + val > |r.data| { return false; }
      ghost var t := r.Rest();
      assert r.data[r.pos + val..] == t[val..];
      r.pos := r.pos + val;
      return true;
    } else if major == Cbor.MAJOR_ARRAY {
      ok := SkipItems(r, val);
    } else if major == Cbor.MAJOR_MAP {
      ok := SkipEntries(r, val);
    } else if major == Cbor.MAJOR_TAG {
      ok := Skip(r);
    } else {
      return true;
    }
  }

  /** The loop over the elements of an array. */
  method SkipItems(r: Reader, n: nat) returns (ok: bool)
    requires r.Valid()
    modifies r`pos
    ensures r.Valid()
    ensures SkipR(ok, r.Rest()) == Cbor.SkipMany(old(r.Rest()), n)
    decreases |r.data| - r.pos, 1
  {
    hide Cbor.Skip;
    for i := 0 to n
      invariant r.Valid() && old(r.pos) <= r.pos
      invariant Cbor.SkipMany(r.Rest(), n - i) == Cbor.SkipMany(old(r.Rest()), n)
    {
      var one := Skip(r);
      if !one { return false; }
    }
    ok := true;
  }

  /** The loop over the entries of a map. */
  method SkipEntries(r: Reader, n: nat) returns (ok: bool)
    requires r.Valid()
    modifies r`pos
    ensures r.Valid()
    ensures SkipR(ok, r.Rest()) == Cbor.SkipMany(old(r.Rest()), 2 * n)
    decreases |r.data| - r.pos, 1
  {
    hide Cbor.Skip;
    for i := 0 to n
      invariant r.Valid() && old(r.pos) <= r.pos
      invariant Cbor.SkipMany(r.Rest(), 2 * (n - i)) == Cbor.SkipMany(old(r.Rest()), 2 * n)
    {
      ghost var m := 2 * (n - i) - 1;
      assert m + 1 == 2 * (n - i) && m - 1 == 2 * (n - (i + 1));
      var key := Skip(r);
      if !key { return false; }
      assert Cbor.SkipMany(r.Rest(), m) == Cbor.SkipMany(old(r.Rest()), 2 * n);
      var value := Skip(r);
      if !value { return false; }
    }
    ok := true;
  }
}
