/** The receive buffer: bytes from the bus are appended until the array is
    full; the application copies them out and resets the buffer. */
module ReceiveBuffers {
  import opened Types

  class ReceiveBuffer {
    const buf: array<byte>
    var size: nat

    ghost predicate Valid()
      reads this
    {
      size <= buf.Length
    }

    /** The bytes received since the last reset. */
    ghost function Contents(): seq<byte>
      reads this, buf
      requires Valid()
    {
      buf[..size]
    }

    constructor (capacity: nat)
      ensures Valid() && fresh(buf) && buf.Length == capacity
      ensures size == 0 && Contents() == []
    {
      buf := new byte[capacity];
      size := 0;
    }

    /** Appends one byte; a full buffer refuses it and stays as it was. */
    method WriteByte(b: byte) returns (r: Result<(), ()>)
      requires Valid()
      modifies this`size, buf
      ensures Valid()
      ensures r == if old(size) == buf.Length then Err(()) else Ok(())
      ensures r.Err? ==> size == old(size) && buf[..] == old(buf[..])
      ensures r.Ok? ==> size == old(size) + 1 && buf[..] == old(buf[..])[old(size) := b]
      ensures Contents() == if r.Ok? then old(Contents()) + [b] else old(Contents())
    {
      if size == buf.Length {
        r := Err(());
      } else {
        buf[size] := b;
        size := size + 1;
        r := Ok(());
      }
    }

    function GetSize(): (n: nat)
      reads this, buf
      requires Valid()
      ensures n == |Contents()|
    {
      size
    }

    /** Copies the received bytes to the front of `out` and returns their
        number; when `out` is too short returns Err with the number of bytes
        waiting and writes nothing. The buffer itself is never changed. */
    method Read(out: array<byte>) returns (r: Result<nat, nat>)
      requires Valid() && out != buf
      modifies out
      ensures out.Length < size ==> r == Err(size) && out[..] == old(out[..])
      ensures size <= out.Length ==> r == Ok(size) && out[..] == Contents() + old(out[size..])
    {
      if out.Length < size {
        return Err(size);
      }
      forall i | 0 <= i < size {
        out[i] := buf[i];
      }
      assert out[..] == out[..size] + out[size..];
      r := Ok(size);
    }

    method Reset()
      requires Valid()
      modifies this`size
      ensures Valid() && size == 0 && Contents() == []
    {
      size := 0;
    }
  }

  /** The write-then-read round trip: after a reset, writing k <= capacity
      bytes one at a time and then reading into a large enough slice yields
      exactly those bytes, in order. */
  method ReceiveRoundTrip(rb: ReceiveBuffer, bytes: seq<byte>, out: array<byte>) returns (r: Result<nat, nat>)
    requires rb.Valid() && out != rb.buf
    requires |bytes| <= rb.buf.Length && |bytes| <= out.Length
    modifies rb, rb.buf, out
    ensures rb.Valid() && rb.Contents() == bytes
    ensures r == Ok(|bytes|) && out[..|bytes|] == bytes
  {
    rb.Reset();
    var i := 0;
    while i < |bytes|
      invariant rb.Valid() && i <= |bytes| && rb.Contents() == bytes[..i]
    {
      var w := rb.WriteByte(bytes[i]);
      assert bytes[..i + 1] == bytes[..i] + [bytes[i]];
      i := i + 1;
    }
    assert bytes[..i] == bytes;
    r := rb.Read(out);
  }
}
