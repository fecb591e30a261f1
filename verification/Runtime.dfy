/** The cursor of the binary readers. */
module Runtime {
  import opened Bytes

  class Reader {
    const data: bytes
    var pos: nat

    constructor (data: bytes)
      ensures Valid() && this.data == data && Rest() == data
    {
      this.data, pos := data, 0;
    }

    ghost predicate Valid()
      reads this
    {
      pos <= |data|
    }

    /** The unread bytes. */
    function Rest(): bytes
      reads this
      requires Valid()
    {
      data[pos..]
    }

    /** The next octet, or -1. */
    method Peek() returns (b: int)
      requires Valid()
      ensures b == if Rest() == [] then -1 else Rest()[0]
    {
      if pos >= |data| { return -1; }
      return data[pos];
    }

    method ReadBytes(n: nat) returns (ok: bool, out: bytes)
      requires Valid()
      modifies `pos
      ensures Valid() && ok == (n <= |old(Rest())|)
      ensures ok ==> out == old(Rest())[..n] && Rest() == old(Rest())[n..]
      ensures !ok ==> Rest() == old(Rest())
    {
      if pos + n > |data| { return false, []; }
      ok, out := true, data[pos..pos + n];
      pos := pos + n;
    }
  }
}
