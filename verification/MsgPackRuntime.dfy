/** The MessagePack runtime as it runs: writers append to a buffer, readers move a cursor. */
module MsgPackRuntime {
  import opened Bytes
  import opened Floats
  import opened Runtime
  import opened Sstr
  import MsgPack

  method PackUint(out: Buffer, v: u64)
    requires out.Valid()
    modifies out.Repr
    ensures out.Valid() && fresh(out.Repr - old(out.Repr))
    ensures out.Contents() == old(out.Contents()) + MsgPack.EncUint(v)
  {
    if v <= 0x7f {
      out.AppendOf([v]);
    } else if v <= 0xff {
      out.AppendOf([MsgPack.UINT8, v]);
    } else if v <= 0xffff {
      out.AppendOf([MsgPack.UINT16] + BE(v, 2));
    } else if v <= 0xffff_ffff {
      out.AppendOf([MsgPack.UINT32] + BE(v, 4));
    } else {
      out.AppendOf([MsgPack.UINT64] + BE(v, 8));
    }
  }

  method PackInt(out: Buffer, v: int)
    requires out.Valid() && -TWO_TO_THE_63 <= v < TWO_TO_THE_63
    modifies out.Repr
    ensures out.Valid() && fresh(out.Repr - old(out.Repr))
    ensures out.Contents() == old(out.Contents()) + MsgPack.EncInt(v)
  {
    if v >= 0 {
      PackUint(out, v);
    } else if v >= -32 {
      out.AppendOf([v + 0x100]);
    } else if v >= -0x80 {
      out.AppendOf([MsgPack.INT8, v + 0x100]);
    } else if v >= -0x8000 {
      out.AppendOf([MsgPack.INT16] + BE(v + TWO_TO_THE_16, 2));
    } else if v >= -0x8000_0000 {
      out.AppendOf([MsgPack.INT32] + BE(v + TWO_TO_THE_32, 4));
    } else {
      out.AppendOf([MsgPack.INT64] + BE(v + TWO_TO_THE_64, 8));
    }
  }

  method PackStr(out: Buffer, s: bytes)
    requires out.Valid()
    modifies out.Repr
    ensures out.Valid() && fresh(out.Repr - old(out.Repr))
    ensures out.Contents() == old(out.Contents()) + MsgPack.EncStr(s)
  {
    hide MsgPack.StrHeader;
    ghost var was := out.Contents();
    var len := |s| % TWO_TO_THE_32;
    PackStrHeader(out, len);
    if len > 0 { out.AppendOf(s[..len]); }
    Regroup(was, MsgPack.StrHeader(len), s[..len]);
  }

  method PackStrHeader(out: Buffer, len: nat)
    requires out.Valid() && len < TWO_TO_THE_32
    modifies out.Repr
    ensures out.Valid() && fresh(out.Repr - old(out.Repr))
    ensures out.Contents() == old(out.Contents()) + MsgPack.StrHeader(len)
  {
    if len <= 0x1f {
      out.AppendOf([MsgPack.FIXSTR + len]);
    } else if len <= 0xff {
      out.AppendOf([MsgPack.STR8, len]);
    } else if len <= 0xffff {
      out.AppendOf([MsgPack.STR16] + BE(len, 2));
    } else {
      out.AppendOf([MsgPack.STR32] + BE(len, 4));
    }
  }

  method PackArrayHeader(out: Buffer, n: nat)
    requires out.Valid()
    modifies out.Repr
    ensures out.Valid() && fresh(out.Repr - old(out.Repr))
    ensures out.Contents() == old(out.Contents()) + MsgPack.EncArrayHeader(n)
  {
    var count := n % TWO_TO_THE_32;
    if count <= 0xf {
      out.AppendOf([MsgPack.FIXARRAY + count]);
    } else if count <= 0xffff {
      out.AppendOf([MsgPack.ARRAY16] + BE(count, 2));
    } else {
      out.AppendOf([MsgPack.ARRAY32] + BE(count, 4));
    }
  }

  method PackMapHeader(out: Buffer, n: nat)
    requires out.Valid()
    modifies out.Repr
    ensures out.Valid() && fresh(out.Repr - old(out.Repr))
    ensures out.Contents() == old(out.Contents()) + MsgPack.EncMapHeader(n)
  {
    var count := n % TWO_TO_THE_32;
    if count <= 0xf {
      out.AppendOf([MsgPack.FIXMAP + count]);
    } else if count <= 0xffff {
      out.AppendOf([MsgPack.MAP16] + BE(count, 2));
    } else {
      out.AppendOf([MsgPack.MAP32] + BE(count, 4));
    }
  }

  /** mp_read_bytes followed by the big-endian load. */
  method ReadUnsigned(r: Reader, w: nat) returns (ok: bool, v: nat)
    requires r.Valid()
    modifies r`pos
    ensures r.Valid() && ok == MsgPack.ReadBE(old(r.Rest()), w).Ok?
    ensures ok ==> MsgPack.ReadBE(old(r.Rest()), w) == Ok(v, r.Rest())
  {
    var good, p := r.ReadBytes(w);
    ok, v := good, if good then FromBE(p) else 0;
  }

  method Read1(r: Reader) returns (ok: bool, b: byte)
    requires r.Valid()
    modifies r`pos
    ensures r.Valid() && ok == (old(r.Rest()) != [])
    ensures ok ==> b == old(r.Rest())[0] && r.Rest() == old(r.Rest())[1..]
    ensures !ok ==> r.Rest() == old(r.Rest())
  {
    if r.pos >= |r.data| { return false, 0; }
    ok, b := true, r.data[r.pos];
    r.pos := r.pos + 1;
  }

  method UnpackInt64(r: Reader) returns (ok: bool, v: int)
    requires r.Valid()
    modifies r`pos
    ensures r.Valid() && ok == MsgPack.DecInt64(old(r.Rest())).Ok?
    ensures ok ==> MsgPack.DecInt64(old(r.Rest())) == Ok(v, r.Rest())
  {
    v := 0;
    var got, b := Read1(r);
    if !got { return false, v; }
    if b <= MsgPack.FIXINT_MAX { return true, b; }
    if b >= MsgPack.NEG_FIXINT { return true, b - 0x100; }
    var w :=
      if b == MsgPack.UINT8 || b == MsgPack.INT8 then 1
      else if b == MsgPack.UINT16 || b == MsgPack.INT16 then 2
      else if b == MsgPack.UINT32 || b == MsgPack.INT32 then 4
      else if b == MsgPack.UINT64 || b == MsgPack.INT64 then 8
      else 0;
    if w == 0 { return false, v; }
    var good, u := ReadUnsigned(r, w);
    if !good { return false, v; }
    v := if b in {MsgPack.UINT8, MsgPack.UINT16, MsgPack.UINT32} then u else MsgPack.Signed(u, w);
    ok := true;
  }

  method UnpackUint64(r: Reader) returns (ok: bool, v: int)
    requires r.Valid()
    modifies r`pos
    ensures r.Valid() && ok == MsgPack.DecUint64(old(r.Rest())).Ok?
    ensures ok ==> MsgPack.DecUint64(old(r.Rest())) == Ok(v, r.Rest())
  {
    v := 0;
    var got, b := Read1(r);
    if !got { return false, v; }
    if b <= MsgPack.FIXINT_MAX { return true, b; }
    var w :=
      if b == MsgPack.UINT8 || b == MsgPack.INT8 then 1
      else if b == MsgPack.UINT16 || b == MsgPack.INT16 then 2
      else if b == MsgPack.UINT32 || b == MsgPack.INT32 then 4
      else if b == MsgPack.UINT64 || b == MsgPack.INT64 then 8
      else 0;
    if w == 0 { return false, v; }
    var good, u := ReadUnsigned(r, w);
    if !good { return false, v; }
    v := if b in {MsgPack.INT8, MsgPack.INT16, MsgPack.INT32} then MsgPack.Signed(u, w) % TWO_TO_THE_64 else u;
    ok := true;
  }

  method UnpackBool(r: Reader) returns (ok: bool, b: bool)
    requires r.Valid()
    modifies r`pos
    ensures r.Valid() && ok == MsgPack.DecBool(old(r.Rest())).Ok?
    ensures ok ==> MsgPack.DecBool(old(r.Rest())) == Ok(b, r.Rest())
  {
    b := false;
    var got, m := Read1(r);
    if !got { return false, b; }
    if m == MsgPack.TRUE { return true, true; }
    return m == MsgPack.FALSE, false;
  }

  method UnpackDouble(fp: FloatOps, r: Reader) returns (ok: bool, d: u64)
    requires r.Valid()
    modifies r`pos
    ensures r.Valid() && ok == MsgPack.DecDouble(fp, old(r.Rest())).Ok?
    ensures ok ==> MsgPack.DecDouble(fp, old(r.Rest())) == Ok(d, r.Rest())
  {
    d := 0;
    Pow256Values();
    var start := r.pos;
    var got, b := Read1(r);
    if !got { return false, d; }
    if b == MsgPack.FLOAT64 {
      var good, u := ReadUnsigned(r, 8);
      return good, if good then u else d;
    }
    if b == MsgPack.FLOAT32 {
      var good, u := ReadUnsigned(r, 4);
      return good, if good then fp.widen(u) else d;
    }
    r.pos := start;
    var good, i := UnpackInt64(r);
    return good, if good then fp.ofSigned(i) else d;
  }

  method UnpackStr(r: Reader) returns (ok: bool, out: bytes)
    requires r.Valid()
    modifies r`pos
    ensures r.Valid() && ok == MsgPack.DecStr(old(r.Rest())).Ok?
    ensures ok ==> MsgPack.DecStr(old(r.Rest())) == Ok(out, r.Rest())
  {
    out := [];
    var got, b := Read1(r);
    if !got { return false, out; }
    var len := b % 32;
    if !MsgPack.IsFixStr(b) {
      var w := if b == MsgPack.STR8 then 1 else if b == MsgPack.STR16 then 2 else if b == MsgPack.STR32 then 4 else 0;
      if w == 0 { return false, out; }
      var good, n := ReadUnsigned(r, w);
      if !good { return false, out; }
      var fits, p := r.ReadBytes(n);
      return fits, p;
    }
    ok, out := r.ReadBytes(len);
  }

  method UnpackArrayHeader(r: Reader) returns (ok: bool, count: nat)
    requires r.Valid()
    modifies r`pos
    ensures r.Valid() && ok == MsgPack.DecArrayHeader(old(r.Rest())).Ok?
    ensures ok ==> MsgPack.DecArrayHeader(old(r.Rest())) == Ok(count, r.Rest())
  {
    count := 0;
    var got, b := Read1(r);
    if !got { return false, count; }
    if MsgPack.IsFixArray(b) { return true, b % 16; }
    var w := if b == MsgPack.ARRAY16 then 2 else if b == MsgPack.ARRAY32 then 4 else 0;
    if w == 0 { return false, count; }
    ok, count := ReadUnsigned(r, w);
  }

  method UnpackMapHeader(r: Reader) returns (ok: bool, count: nat)
    requires r.Valid()
    modifies r`pos
    ensures r.Valid() && ok == MsgPack.DecMapHeader(old(r.Rest())).Ok?
    ensures ok ==> MsgPack.DecMapHeader(old(r.Rest())) == Ok(count, r.Rest())
  {
    count := 0;
    var got, b := Read1(r);
    if !got { return false, count; }
    if MsgPack.IsFixMap(b) { return true, b % 16; }
    var w := if b == MsgPack.MAP16 then 2 else if b == MsgPack.MAP32 then 4 else 0;
    if w == 0 { return false, count; }
    ok, count := ReadUnsigned(r, w);
  }

  method SkipBytes(r: Reader, n: nat) returns (ok: bool)
    requires r.Valid()
    modifies r`pos
    ensures r.Valid()
    ensures SkipR(ok, r.Rest()) == MsgPack.SkipBytes(old(r.Rest()), n)
  {
    var p;
    ok, p := r.ReadBytes(n);
  }

  /** The recursive skipper; on failure the cursor stays where the failing part began. */
  method Skip(r: Reader) returns (ok: bool)
    requires r.Valid()
    modifies r`pos
    ensures r.Valid()
    ensures SkipR(ok, r.Rest()) == MsgPack.Skip(old(r.Rest()))
    decreases |r.data| - r.pos, 0
  {
    hide MsgPack.SkipMany, MsgPack.ReadBE, MsgPack.SkipBytes;
    var got, b := Read1(r);
    if !got { return false; }
    if b <= MsgPack.FIXINT_MAX || b >= MsgPack.NEG_FIXINT { return true; }
    if MsgPack.IsFixStr(b) {
      ok := SkipBytes(r, b % 32);
    } else if MsgPack.IsFixArray(b) {
      ok := SkipItems(r, b % 16);
    } else if MsgPack.IsFixMap(b) {
      ok := SkipEntries(r, b % 16);
    } else if b == MsgPack.STR8 || b == MsgPack.STR16 || b == MsgPack.STR32 {
      var good, len := ReadOrStay(r, if b == MsgPack.STR8 then 1 else if b == MsgPack.STR16 then 2 else 4);
      if !good { return false; }
      ok := SkipBytes(r, len);
    } else if b == MsgPack.ARRAY16 || b == MsgPack.ARRAY32 {
      var good, count := ReadOrStay(r, if b == MsgPack.ARRAY16 then 2 else 4);
      if !good { return false; }
      ok := SkipItems(r, count);
    } else if b == MsgPack.MAP16 || b == MsgPack.MAP32 {
      var good, count := ReadOrStay(r, if b == MsgPack.MAP16 then 2 else 4);
      if !good { return false; }
      ok := SkipEntries(r, count);
    } else {
      var w := MsgPack.PayloadWidth(b);
      if w == -1 { return false; }
      ok := SkipBytes(r, w);
    }
  }

  /** Reads a length; the cursor does not move when it is cut short. */
  method ReadOrStay(r: Reader, w: nat) returns (ok: bool, v: nat)
    requires r.Valid()
    modifies r`pos
    ensures r.Valid() && ok == MsgPack.ReadBE(old(r.Rest()), w).Ok?
    ensures ok ==> MsgPack.ReadBE(old(r.Rest()), w) == Ok(v, r.Rest())
    ensures !ok ==> r.Rest() == old(r.Rest())
    ensures r.pos >= old(r.pos)
  {
    ok, v := false, 0;
    if r.pos + w > |r.data| { return; }
    ok, v := ReadUnsigned(r, w);
  }

  /** The loop over the elements of an array. */
  method SkipItems(r: Reader, n: nat) returns (ok: bool)
    requires r.Valid()
    modifies r`pos
    ensures r.Valid()
    ensures SkipR(ok, r.Rest()) == MsgPack.SkipMany(old(r.Rest()), n)
    decreases |r.data| - r.pos, 1
  {
    hide MsgPack.Skip;
    for i := 0 to n
      invariant r.Valid() && old(r.pos) <= r.pos
      invariant MsgPack.SkipMany(r.Rest(), n - i) == MsgPack.SkipMany(old(r.Rest()), n)
    {
      var one := Skip(r);
      if !one { return false; }
    }
    ok := true;
  }

  /** The loop over the entries of a map. */
  method SkipEntries(r: Reader, n: nat) returns (ok: bool)
    requires r.Valid()
    modifies r`pos
    ensures r.Valid()
    ensures SkipR(ok, r.Rest()) == MsgPack.SkipMany(old(r.Rest()), 2 * n)
    decreases |r.data| - r.pos, 1
  {
    hide MsgPack.Skip;
    for i := 0 to n
      invariant r.Valid() && old(r.pos) <= r.pos
      invariant MsgPack.SkipMany(r.Rest(), 2 * (n - i)) == MsgPack.SkipMany(old(r.Rest()), 2 * n)
    {
      ghost var m := 2 * (n - i) - 1;
      assert m + 1 == 2 * (n - i) && m - 1 == 2 * (n - (i + 1));
      var key := Skip(r);
      if !key { return false; }
      assert MsgPack.SkipMany(r.Rest(), m) == MsgPack.SkipMany(old(r.Rest()), 2 * n);
      var value := Skip(r);
      if !value { return false; }
    }
    ok := true;
  }
}
