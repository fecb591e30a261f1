/** Finding the tag of a union in a JSON object: the runtime's scan and the emitted one. */
module JsonTag {
  import opened Bytes
  import opened Sstr
  import opened Runtime
  import opened JsonLex
  import opened JsonSkip

  /** A C string ends at its first NUL. */
  function CString(s: bytes): bytes {
    if s == [] || s[0] == 0 then [] else [s[0]] + CString(s[1..])
  }

  // ----- The members of a well-formed object -----

  /** What follows the object whose opening brace is just before `s`. */
  function Object(s: bytes): (r: Option<bytes>)
    ensures r.Some? ==> |r.value| < |s|
  {
    if Next(s).kind == Punct(CLOSE_BRACE) then Some(Next(s).rest) else Members(s)
  }

  /** A key, and the text its value starts. */
  datatype Member = Member(key: bytes, at: bytes)

  function MemberList(s: bytes): seq<Member>
    requires Members(s).Some?
    decreases |s|
  {
    var v := MemberValue(s).value;
    var l := Next(Value(v).value);
    [Member(Next(s).text, v)] + if l.kind == Punct(COMMA) then MemberList(l.rest) else []
  }

  /** The object's own members, in order; what lies deeper is not among them. */
  function ObjectMembers(s: bytes): seq<Member>
    requires Object(s).Some?
  {
    if Next(s).kind == Punct(CLOSE_BRACE) then [] else MemberList(s)
  }

  /** `Hangs`: the scan would not end. */
  datatype Found = Found(text: bytes) | Absent | Hangs

  /** The first member named `tag`, if its value is a string. */
  function FirstTag(ms: seq<Member>, tag: bytes): Found {
    if ms == [] then Absent
    else if CString(ms[0].key) != tag then FirstTag(ms[1..], tag)
    else if Next(ms[0].at).kind == String then Found(Next(ms[0].at).text)
    else Absent
  }

  // ----- The two scans -----

  /** A way to skip the values between. */
  datatype Skipper = ByCounters | ByDepth

  function Skip(how: Skipper, s: bytes): (o: Outcome)
    ensures o.Skipped? ==> |o.rest| <= |s|
  {
    if how == ByCounters then Count(s, 0, 0) else SkipByDepth(s)
  }

  function ScanTag(how: Skipper, s: bytes, tag: bytes): Found
    decreases |s|
  {
    var l := Next(s);
    if l.kind == Punct(COMMA) then ScanTag(how, l.rest, tag)
    else if l.kind != String || Next(l.rest).kind != Punct(COLON) then Absent
    else
      var v := Next(l.rest).rest;
      if CString(l.text) == tag then if Next(v).kind == String then Found(Next(v).text) else Absent
      else
        match Skip(how, v)
        case AtEnd => Absent
        case Forever => Hangs
        case Skipped(rest) => ScanTag(how, rest, tag)
  }

  lemma {:induction false} SkipFollowsGrammar(how: Skipper, s: bytes)
    requires Value(s).Some?
    ensures Skip(how, s) == Skipped(Value(s).value)
  {
    CountersFollowGrammar(s);
    DepthFollowsGrammar(s);
  }

  /** Either scan of a well-formed object sees its own members only, and finds the first that is named `tag`. */
  lemma {:induction false} ScanSeesOwnMembers(how: Skipper, s: bytes, tag: bytes)
    requires Object(s).Some?
    ensures ScanTag(how, s, tag) == FirstTag(ObjectMembers(s), tag)
  {
    if Next(s).kind != Punct(CLOSE_BRACE) { ScanSeesMembers(how, s, tag); }
  }

  lemma {:induction false} ScanSeesMembers(how: Skipper, s: bytes, tag: bytes)
    requires Members(s).Some?
    ensures ScanTag(how, s, tag) == FirstTag(MemberList(s), tag)
    decreases |s|
  {
    hide Next, Value, Skip, CString;
    var v := MemberValue(s).value;
    var t := Value(v).value;
    var l := Next(t);
    SkipFollowsGrammar(how, v);
    var ms := MemberList(s);
    assert ms[0] == Member(Next(s).text, v);
    if l.kind == Punct(COMMA) {
      assert ms[1..] == MemberList(l.rest);
      ScanSeesMembers(how, l.rest, tag);
      ScanOverComma(how, t, tag);
    } else {
      assert ms[1..] == [];
      ScanAtClose(how, t, tag);
    }
  }

  lemma {:induction false} ScanOverComma(how: Skipper, t: bytes, tag: bytes)
    requires Next(t).kind == Punct(COMMA)
    ensures ScanTag(how, t, tag) == ScanTag(how, Next(t).rest, tag)
  {
  }

  lemma {:induction false} ScanAtClose(how: Skipper, t: bytes, tag: bytes)
    requires Next(t).kind == Punct(CLOSE_BRACE)
    ensures ScanTag(how, t, tag) == Absent
  {
  }

  // ----- The loops -----

  method SkipOver(how: Skipper, r: Reader, txt: Buffer) returns (o: Outcome)
    requires r.Valid() && txt.Valid() && txt.HasBuffer() && r !in txt.Repr
    modifies r`pos, txt.Repr
    ensures r.Valid() && txt.Valid() && txt.HasBuffer() && fresh(txt.Repr - old(txt.Repr))
    ensures o == Skip(how, old(r.Rest())) && (o.Skipped? ==> r.Rest() == o.rest)
  {
    match how
    case ByCounters => o := IgnoreValue(r, txt);
    case ByDepth => o := SkipValueByDepth(r, txt);
  }

  /** The runtime's scan and the emitted loop differ in how they skip. */
  method ScanTagValue(how: Skipper, r: Reader, tag: bytes, txt: Buffer) returns (found: Found)
    requires r.Valid() && txt.Valid() && txt.HasBuffer() && r !in txt.Repr
    modifies r`pos, txt.Repr
    ensures r.Valid() && txt.Valid() && txt.HasBuffer() && fresh(txt.Repr - old(txt.Repr))
    ensures found == ScanTag(how, old(r.Rest()), tag)
  {
    hide Next, Skip, CString;
    while true
      invariant r.Valid() && txt.Valid() && txt.HasBuffer() && fresh(txt.Repr - old(txt.Repr)) && r !in txt.Repr
      invariant ScanTag(how, r.Rest(), tag) == ScanTag(how, old(r.Rest()), tag)
      decreases |r.Rest()|
    {
      var tk := NextToken(r, txt);
      if tk == Punct(COMMA) { continue; }
      if tk != String { return Absent; }
      var key := txt.Bytes();
      tk := NextToken(r, txt);
      if tk != Punct(COLON) { return Absent; }
      if CString(key) == tag {
        tk := NextToken(r, txt);
        if tk != String { return Absent; }
        var text := txt.Bytes();
        return Found(text);
      }
      var o := SkipOver(how, r, txt);
      if o == AtEnd { return Absent; }
      if o == Forever { return Hangs; }
    }
  }

  /** The runtime's scan puts the cursor back. */
  method ScanAndRestore(r: Reader, tag: bytes, txt: Buffer) returns (found: Found)
    requires r.Valid() && txt.Valid() && txt.HasBuffer() && r !in txt.Repr
    modifies r`pos, txt.Repr
    ensures r.Valid() && r.Rest() == old(r.Rest()) && txt.Valid() && txt.HasBuffer() && fresh(txt.Repr - old(txt.Repr))
    ensures found == ScanTag(ByCounters, old(r.Rest()), tag)
    ensures Object(old(r.Rest())).Some? ==> found == FirstTag(ObjectMembers(old(r.Rest())), tag)
  {
    hide ScanTag, FirstTag, Object, ObjectMembers;
    var saved := r.pos;
    found := ScanTagValue(ByCounters, r, tag, txt);
    r.pos := saved;
    if Object(r.Rest()).Some? { ScanSeesOwnMembers(ByCounters, r.Rest(), tag); }
  }
}
