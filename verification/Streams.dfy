// The byte source behind the readers: a stream that may return fewer bytes
// than asked for, and returns 0 only at its end (tinfra/stream.h).
module Streams {

  class InputStream {
    const data: string
    var pos: nat
    // whether a read has already reported the end
    var eofReported: bool

    ghost predicate Valid()
      reads this
    {
      pos <= |data| && (eofReported ==> pos == |data|)
    }

    ghost function Unread(): string
      reads this
      requires Valid()
    {
      data[pos..]
    }

    constructor (contents: string)
      ensures Valid() && data == contents && Unread() == contents && !eofReported
    {
      data, pos, eofReported := contents, 0, false;
    }

    // Any number of bytes from 1 to len while there are some, chosen freely.
    method Read(dest: array<char>, at: nat, len: nat) returns (r: nat)
      requires Valid() && at + len <= dest.Length
      modifies this, dest
      ensures Valid() && r <= len
      ensures r == 0 <==> len == 0 || old(Unread()) == ""
      ensures r <= |old(Unread())| && Unread() == old(Unread())[r..]
      ensures forall i | at <= i < at + r :: dest[i] == old(Unread())[i - at]
      ensures forall i | 0 <= i < dest.Length && !(at <= i < at + r) :: dest[i] == old(dest[i])
      ensures eofReported <==> old(eofReported) || (len > 0 && r == 0)
    {
      var limit := if len <= |data| - pos then len else |data| - pos;
      if limit == 0 {
        r := 0;
        eofReported := eofReported || len > 0;
      } else {
        r :| 1 <= r <= limit;
        forall i | at <= i < at + r {
          dest[i] := data[pos + i - at];
        }
        pos := pos + r;
      }
    }
  }
}
