/** The transmit buffer: a fixed-size byte array with a read cursor `pos` and
    an end mark `end`. The application writes a whole response at once; the
    event interrupt pops it byte by byte. */
module SendBuffers {
  import opened Types

  /** The two conditions under which `write` panics. */
  datatype WritePanic = TooMuchData | NotReset

  class SendBuffer {
    const buf: array<byte>
    var pos: nat
    var end: nat

    ghost predicate Valid()
      reads this
    {
      pos <= end <= buf.Length
    }

    /** The bytes of the last write that have not been popped yet. */
    ghost function Pending(): seq<byte>
      reads this, buf
      requires Valid()
    {
      buf[pos..end]
    }

    /** The bytes of the last write that have already been popped. */
    ghost function Popped(): seq<byte>
      reads this, buf
      requires Valid()
    {
      buf[..pos]
    }

    constructor (capacity: nat)
      ensures Valid() && fresh(buf) && buf.Length == capacity
      ensures pos == 0 && end == 0 && Pending() == []
    {
      buf := new byte[capacity];
      pos, end := 0, 0;
    }

    /** Copies `b` into the buffer and returns the part that did not fit,
        which is always empty: a too-long slice or a buffer that still holds
        unsent bytes is a panic, and then nothing changes. */
    method Write(b: seq<byte>) returns (r: Result<seq<byte>, WritePanic>)
      requires Valid()
      modifies this, buf
      ensures Valid()
      ensures |b| > buf.Length ==> r == Err(TooMuchData)
      ensures |b| <= buf.Length && old(pos) != old(end) ==> r == Err(NotReset)
      ensures r.Err? ==> pos == old(pos) && end == old(end) && buf[..] == old(buf[..])
      ensures r.Ok? <==> |b| <= buf.Length && old(pos) == old(end)
      ensures r.Ok? ==> r.value == [] && pos == 0 && end == |b| && Pending() == b
      ensures r.Ok? ==> buf[|b|..] == old(buf[|b|..])
    {
      if |b| > buf.Length {
        return Err(TooMuchData);
      }
      if !IsEmpty() {
        return Err(NotReset);
      }
      forall i | 0 <= i < |b| {
        buf[i] := b[i];
      }
      pos, end := 0, |b|;
      assert buf[..|b|] == b;
      r := Ok(b[|b|..]);
    }

    method Reset()
      requires Valid()
      modifies this`pos, this`end
      ensures Valid() && pos == 0 && end == 0
      ensures Pending() == [] && BytesSent() == 0
    {
      pos, end := 0, 0;
    }

    /** The number of bytes popped since the last write. */
    function BytesSent(): (n: nat)
      reads this, buf
      requires Valid()
      ensures n == |Popped()|
    {
      pos
    }

    function IsEmpty(): (e: bool)
      reads this, buf
      requires Valid()
      ensures e <==> Pending() == []
    {
      end == pos
    }

    /** The iterator's `next`: the next pending byte, or None when nothing is
        pending (and then nothing changes). */
    method Next() returns (r: Option<byte>)
      requires Valid()
      modifies this`pos
      ensures Valid() && end == old(end)
      ensures old(pos) == old(end) ==> r == None && pos == old(pos)
      ensures old(pos) < old(end) ==> r == Some(buf[old(pos)]) && pos == old(pos) + 1
      ensures r.Some? ==> Pending() == old(Pending())[1..] && Popped() == old(Popped()) + [r.value]
    {
      if IsEmpty() {
        r := None;
      } else {
        pos := pos + 1;
        r := Some(buf[pos - 1]);
        assert buf[..pos] == buf[..pos - 1] + [buf[pos - 1]];
      }
    }
  }

  /** The write-then-pop round trip: after writing `b` into an empty buffer,
      repeated `next` yields exactly `b`, in order, and then None, and
      `bytes_sent` is |b|. */
  method TransmitRoundTrip(sb: SendBuffer, b: seq<byte>) returns (popped: seq<byte>, last: Option<byte>)
    requires sb.Valid() && sb.pos == sb.end && |b| <= sb.buf.Length
    modifies sb, sb.buf
    ensures sb.Valid() && popped == b && last == None && sb.BytesSent() == |b|
  {
    var w := sb.Write(b);
    popped := [];
    last := sb.Next();
    while last.Some?
      invariant sb.Valid() && sb.end == |b| && sb.buf[..|b|] == b
      invariant last.Some? ==> 1 <= sb.pos && popped + [last.value] == b[..sb.pos]
      invariant last.None? ==> popped == b[..sb.pos] && sb.pos == sb.end
      decreases sb.end - sb.pos, last.Some?
    {
      popped := popped + [last.value];
      last := sb.Next();
    }
  }
}
