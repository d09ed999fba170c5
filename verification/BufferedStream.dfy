// Buffered reading over a source with short reads, and copying to a sink with
// short writes (tinfra/buffered_stream.cpp, tinfra/stream.cpp).
module BufferedStream {
  import opened Common
  import opened Streams

  // One stretch filled after another.
  lemma {:induction false} TwoParts(mid: string, end: string, at: nat, a: nat, b: nat, text: string)
    requires |mid| == |end| && at + a + b <= |end| && a + b <= |text|
    requires forall i | at <= i < at + a :: mid[i] == text[i - at]
    requires forall i | at + a <= i < at + a + b :: end[i] == text[a..][i - (at + a)]
    requires forall i | 0 <= i < |end| && !(at + a <= i < at + a + b) :: end[i] == mid[i]
    ensures forall i | at <= i < at + a + b :: end[i] == text[i - at]
  {
  }

  lemma {:induction false} DropFirst(a: string, b: string, n: nat)
    requires n <= |a|
    ensures (a + b)[n..] == a[n..] + b
  {
  }

  class BufferedInputStream {
    const target: InputStream
    const buffer: array<char>
    var bufBegin: nat
    var bufEnd: nat
    var eofReaded: bool

    ghost predicate Valid()
      reads this, target, buffer
    {
      && bufBegin <= bufEnd <= buffer.Length && target.Valid()
      && (target.eofReported ==> eofReaded)
    }

    ghost function Buffered(): string
      requires Valid()
      reads this, target, buffer
    {
      buffer[bufBegin..bufEnd]
    }

    // What reads will still deliver.
    ghost function Ahead(): string
      requires Valid()
      reads this, target, buffer
    {
      Buffered() + if eofReaded then "" else target.Unread()
    }

    constructor (target: InputStream, size: nat)
      requires target.Valid() && !target.eofReported
      ensures Valid() && fresh(buffer) && this.target == target && buffer.Length == size && Ahead() == target.Unread()
    {
      this.target := target;
      buffer := new char[size];
      bufBegin, bufEnd, eofReaded := 0, 0, false;
    }

    // A read of the target, which has not reported its end.
    method ReadTarget(dest: array<char>, at: nat, len: nat) returns (r: nat)
      requires Valid() && !eofReaded && 0 < len && at + len <= dest.Length
      requires dest == buffer ==> bufEnd <= at
      modifies this`eofReaded, target, dest
      ensures Valid() && r <= len && (eofReaded <==> r == 0) && (r == 0 <==> old(target.Unread()) == "")
      ensures r <= |old(target.Unread())| && target.Unread() == old(target.Unread())[r..]
      ensures forall i | at <= i < at + r :: dest[i] == old(target.Unread())[i - at]
      ensures forall i | 0 <= i < dest.Length && !(at <= i < at + r) :: dest[i] == old(dest[i])
    {
      assert !target.eofReported;
      r := target.Read(dest, at, len);
      if r == 0 {
        eofReaded := true;
      }
    }

    method ConsumeBuffer(dest: array<char>, at: nat, size: nat) returns (n: nat)
      requires Valid() && dest != buffer && at + size <= dest.Length
      modifies this`bufBegin, dest
      ensures Valid()
      ensures n == if |old(Buffered())| < size then |old(Buffered())| else size
      ensures Buffered() == old(Buffered())[n..] && n <= |old(Ahead())| && Ahead() == old(Ahead())[n..]
      ensures n < size ==> Buffered() == "" && (eofReaded ==> Ahead() == "")
      ensures forall i | at <= i < at + n :: dest[i] == old(Ahead())[i - at]
      ensures forall i | 0 <= i < dest.Length && !(at <= i < at + n) :: dest[i] == old(dest[i])
    {
      n := if bufEnd - bufBegin < size then bufEnd - bufBegin else size;
      DropFirst(Buffered(), if eofReaded then "" else target.Unread(), n);
      if n > 0 {
        forall i | at <= i < at + n {
          dest[i] := buffer[bufBegin + i - at];
        }
        bufBegin := bufBegin + n;
      }
    }

    // Move what is left to the front.
    method Compact()
      requires Valid()
      modifies this`bufBegin, this`bufEnd, buffer
      ensures Valid() && bufBegin == 0 && Buffered() == old(Buffered())
    {
      var n := bufEnd - bufBegin;
      if bufBegin != 0 {
        if n != 0 {
          forall i | 0 <= i < n {
            buffer[i] := buffer[bufBegin + i];
          }
        }
        bufBegin := 0;
        bufEnd := n;
      }
    }

    // Move what is left to the front and read once behind it.
    method FillBuffer() returns (some: bool)
      requires Valid() && !eofReaded && |Buffered()| < buffer.Length
      modifies this`bufBegin, this`bufEnd, this`eofReaded, target, buffer
      ensures Valid() && Ahead() == old(Ahead())
      ensures (some <==> Buffered() != "") && (!some ==> eofReaded)
      ensures Buffered() + target.Unread() == old(Buffered() + target.Unread())
    {
      ghost var unread := target.Unread();
      Compact();
      ghost var kept := Buffered();
      var r := ReadTarget(buffer, bufEnd, buffer.Length - bufEnd);
      bufEnd := bufEnd + r;
      assert buffer[bufBegin..bufEnd] == kept + unread[..r];
      Rejoin(kept, unread, r);
      some := bufEnd != bufBegin;
    }

    // A read through the buffer, which is empty.
    method ReadThrough(dest: array<char>, at: nat, size: nat) returns (r: nat)
      requires Valid() && Buffered() == "" && !eofReaded && dest != buffer
      requires 0 < size <= buffer.Length && at + size <= dest.Length
      modifies this`bufBegin, this`bufEnd, this`eofReaded, target, buffer, dest
      ensures Valid() && r <= size && (r == 0 <==> old(Ahead()) == "")
      ensures r <= |old(Ahead())| && Ahead() == old(Ahead())[r..]
      ensures forall i | at <= i < at + r :: dest[i] == old(Ahead())[i - at]
      ensures forall i | 0 <= i < dest.Length && !(at <= i < at + r) :: dest[i] == old(dest[i])
    {
      var some := FillBuffer();
      if !some {
        return 0;
      }
      r := ConsumeBuffer(dest, at, size);
    }

    // A read once the buffer is empty: directly, or through the buffer.
    method ReadMore(dest: array<char>, at: nat, size: nat) returns (r: nat)
      requires Valid() && Buffered() == "" && !eofReaded && dest != buffer && 0 < size && at + size <= dest.Length
      modifies this`bufBegin, this`bufEnd, this`eofReaded, target, buffer, dest
      ensures Valid() && r <= size && (r == 0 <==> old(Ahead()) == "")
      ensures r <= |old(Ahead())| && Ahead() == old(Ahead())[r..]
      ensures forall i | at <= i < at + r :: dest[i] == old(Ahead())[i - at]
      ensures forall i | 0 <= i < dest.Length && !(at <= i < at + r) :: dest[i] == old(dest[i])
    {
      ghost var ahead := Ahead();
      assert ahead == target.Unread();
      if size > buffer.Length {
        r := ReadTarget(dest, at, size);
        assert Ahead() == ahead[r..];
      } else {
        r := ReadThrough(dest, at, size);
      }
    }

    // Up to size bytes, and none only if there are none.
    method Read(dest: array<char>, at: nat, size: nat) returns (r: nat)
      requires Valid() && dest != buffer && at + size <= dest.Length
      modifies this`bufBegin, this`bufEnd, this`eofReaded, target, buffer, dest
      ensures Valid() && r <= size
      ensures r == 0 <==> size == 0 || old(Ahead()) == ""
      ensures r <= |old(Ahead())| && Ahead() == old(Ahead())[r..]
      ensures forall i | at <= i < at + r :: dest[i] == old(Ahead())[i - at]
      ensures forall i | 0 <= i < dest.Length && !(at <= i < at + r) :: dest[i] == old(dest[i])
    {
      hide Valid, Buffered, Ahead;
      ghost var ahead := Ahead();
      var initial := ConsumeBuffer(dest, at, size);
      r := initial;
      if initial == size || eofReaded {
        return;
      }
      ghost var mid := dest[..];
      var more := ReadMore(dest, at + initial, size - initial);
      r := initial + more;
      DropTwice(ahead, initial, more);
      TwoParts(mid, dest[..], at, initial, more, ahead);
    }

    method Close()
      requires Valid()
      modifies this`bufBegin, this`bufEnd, this`eofReaded
      ensures Valid() && Ahead() == ""
    {
      eofReaded := true;
      bufBegin, bufEnd := 0, 0;
    }
  }

  // A sink that takes any number of the bytes it is offered; a willing one
  // takes at least one.
  class OutputStream {
    var sink: string
    const willing: bool

    constructor (willing: bool)
      ensures sink == "" && this.willing == willing
    {
      sink := "";
      this.willing := willing;
    }

    method Write(data: string) returns (w: nat)
      modifies this
      ensures w <= |data| && sink == old(sink) + data[..w]
      ensures willing && data != "" ==> w > 0
    {
      w :| 0 <= w <= |data| && (willing && data != "" ==> w > 0);
      sink := sink + data[..w];
    }
  }

  // write_all: fails if a write takes nothing, and then a part is written.
  method WriteAll(output: OutputStream, data: string) returns (ok: bool, index: nat)
    modifies output
    ensures index <= |data| && output.sink == old(output.sink) + data[..index]
    ensures ok <==> index == |data|
    ensures output.willing ==> ok
  {
    var toWrite := |data|;
    index := 0;
    while toWrite > 0
      invariant index <= |data| && toWrite == |data| - index && output.sink == old(output.sink) + data[..index]
    {
      var w := output.Write(data[index..]);
      if w == 0 {
        return false, index;
      }
      assert data[..index] + data[index..][..w] == data[..index + w];
      toWrite := toWrite - w;
      index := index + w;
    }
    ok := true;
  }

  // One read of the copy loops: the beginning of what is ahead.
  method ReadChunk(input: BufferedInputStream, tmp: array<char>) returns (readed: nat)
    requires input.Valid() && tmp != input.buffer && tmp.Length > 0
    modifies input, input.target, input.buffer, tmp
    ensures input.Valid() && readed <= tmp.Length && readed <= |old(input.Ahead())|
    ensures tmp[..readed] == old(input.Ahead())[..readed] && input.Ahead() == old(input.Ahead())[readed..]
    ensures readed == 0 <==> old(input.Ahead()) == ""
  {
    hide *;
    readed := input.Read(tmp, 0, tmp.Length);
  }

  // read_all
  method ReadAll(input: BufferedInputStream, bufferSize: nat) returns (all: string)
    requires input.Valid() && bufferSize > 0
    modifies input, input.target, input.buffer
    ensures input.Valid() && all == old(input.Ahead()) && input.Ahead() == ""
  {
    hide *;
    var tmp := new char[bufferSize];
    all := "";
    ghost var text := input.Ahead();
    var readed: nat := ReadChunk(input, tmp);
    while readed > 0
      invariant input.Valid() && readed <= bufferSize && tmp.Length == bufferSize && fresh(tmp)
      invariant readed == 0 ==> input.Ahead() == ""
      invariant all + tmp[..readed] + input.Ahead() == text
      decreases |input.Ahead()| + readed
    {
      all := all + tmp[..readed];
      ghost var ahead := input.Ahead();
      readed := ReadChunk(input, tmp);
      Rejoin(all, ahead, readed);
    }
    assert all == all + tmp[..readed] + input.Ahead();
  }

  // stream_copy: everything the source still has, in order; if a write fails,
  // a beginning of it.
  method StreamCopy(input: BufferedInputStream, output: OutputStream, bufferSize: nat) returns (ok: bool)
    requires input.Valid() && bufferSize > 0
    modifies input, input.target, input.buffer, output
    ensures input.Valid()
    ensures ok ==> output.sink == old(output.sink) + old(input.Ahead()) && input.Ahead() == ""
    ensures !ok ==>
      exists n: nat :: n < |old(input.Ahead())| && output.sink == old(output.sink) + old(input.Ahead())[..n]
    ensures output.willing ==> ok
  {
    hide *;
    var tmp := new char[bufferSize];
    ghost var text, sink := input.Ahead(), output.sink;
    ghost var done := "";
    var readed: nat := ReadChunk(input, tmp);
    while readed > 0
      invariant input.Valid() && readed <= bufferSize && tmp.Length == bufferSize && fresh(tmp)
      invariant readed == 0 ==> input.Ahead() == ""
      invariant output.sink == sink + done && done + tmp[..readed] + input.Ahead() == text
      decreases |input.Ahead()| + readed
    {
      var written: nat;
      ghost var chunk, ahead := tmp[..readed], input.Ahead();
      ok, written := WriteAll(output, tmp[..readed]);
      if !ok {
        Partly(sink, done, chunk, ahead, written);
        return;
      }
      Grown(sink, done, chunk);
      done := done + chunk;
      readed := ReadChunk(input, tmp);
      Rejoin(done, ahead, readed);
    }
    assert done == text by {
      assert done + "" + "" == done;
    }
    ok := true;
  }

  lemma {:induction false} Grown(sink: string, done: string, chunk: string)
    ensures (sink + done) + chunk[..|chunk|] == sink + (done + chunk)
  {
    assert chunk[..|chunk|] == chunk;
  }

  lemma {:induction false} Partly(sink: string, done: string, chunk: string, ahead: string, n: nat)
    requires n < |chunk|
    ensures var text := done + chunk + ahead;
      |done| + n < |text| && (sink + done) + chunk[..n] == sink + text[..|done| + n]
  {
    var text := done + chunk + ahead;
    assert text[..|done| + n] == done + chunk[..n];
  }
}
