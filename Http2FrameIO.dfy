/**
 * Reading and writing HTTP/2 frames on a stream: the 9-octet frame header of
 * section 4.1 of RFC 7540 followed by the payload, and the client connection
 * preface of section 3.5.
 */
module Http2FrameIO {
  import opened Common
  import opened Channel
  import opened Http2Frame

  /** "PRI * HTTP/2.0\r\n\r\nSM\r\n\r\n", octet by octet. */
  const ClientPreface: Bytes := [
    0x50, 0x52, 0x49, 0x20, 0x2a, 0x20, 0x48, 0x54,
    0x54, 0x50, 0x2f, 0x32, 0x2e, 0x30, 0x0d, 0x0a,
    0x0d, 0x0a, 0x53, 0x4d, 0x0d, 0x0a, 0x0d, 0x0a]

  /** The preface octets are the ASCII text of section 3.5 of RFC 7540. */
  lemma ClientPrefaceText()
    ensures |ClientPreface| == 24
    ensures ClientPreface == Octets("PRI * HTTP/2.0\r\n\r\nSM\r\n\r\n")
  {
  }

  /** The 9 header octets: 24-bit length, type, flags, stream id with the R bit clear. */
  function HeaderOctets(f: Frame): (r: Bytes)
    requires f.length <= 0xFF_FFFF
    ensures |r| == 9
  {
    ToBE24(f.length) + [f.frameType, f.flags as int] + ToBE32(Low31(f.streamId))
  }

  /** What WriteFrameAsync sends: the header, then the payload. */
  function WriteSpec(f: Frame): (r: Result<Bytes>)
  {
    if f.length > 0xFF_FFFF then Err(ArgumentError)
    else if |f.payload| != f.length then Err(ArgumentError)
    else Ok(HeaderOctets(f) + f.payload)
  }

  /**
   * What ReadFrameAsync returns for the bytes left on the stream, and how many
   * it consumes: nothing at the end of the stream, an IOException for a
   * truncated header or payload, otherwise the decoded frame.
   */
  function ReadSpec(rem: Bytes): (r: (Result<Option<Frame>>, nat))
  {
    if |rem| == 0 then (Ok(None), 0)
    else if |rem| < 9 then (Err(IOError), |rem|)
    else if |rem| - 9 < BE24(rem, 0) then (Err(IOError), |rem|)
    else
      var length := BE24(rem, 0);
      (Ok(Some(Frame(length, rem[3], rem[4] as bv8, Low31(BE32(rem, 5)), rem[9..9 + length]))), 9 + length)
  }

  lemma ReadSpecFrame(rem: Bytes)
    requires |rem| >= 9 && |rem| - 9 >= BE24(rem, 0)
    ensures var length := BE24(rem, 0);
      ReadSpec(rem) == (Ok(Some(Frame(length, rem[3], rem[4] as bv8, Low31(BE32(rem, 5)), rem[9..9 + length]))), 9 + length)
  {
  }

  /** The header read from position `start` holds the fields ReadSpec decodes. */
  lemma SameHeader(input: Bytes, start: nat, header: Bytes)
    requires start + 9 <= |input| && header == input[start..start + 9]
    ensures var rem := input[start..];
      BE24(header, 0) == BE24(rem, 0) && header[3] == rem[3] && header[4] == rem[4] && BE32(header, 5) == BE32(rem, 5)
  {
  }

  lemma SamePayload(input: Bytes, start: nat, length: nat, payload: Bytes)
    requires start + 9 + length <= |input|
    requires length > 0 ==> payload == input[start + 9..start + 9 + length]
    requires length == 0 ==> payload == []
    ensures payload == input[start..][9..9 + length]
  {
  }

  /** Every frame the reader returns has Length == |Payload| and a stream id in [0, 2^31). */
  lemma ReadFrameShape(rem: Bytes)
    requires ReadSpec(rem).0.Ok? && ReadSpec(rem).0.value.Some?
    ensures var f := ReadSpec(rem).0.value.value;
      f.Consistent() && 0 <= f.streamId < TWO31 && f.length < 0x100_0000 && ReadSpec(rem).1 == 9 + f.length <= |rem|
  {
  }

  /** Reading a frame consumes nothing only at the end of the stream, and never more than is there. */
  lemma ReadConsumes(rem: Bytes)
    ensures ReadSpec(rem).1 <= |rem|
    ensures ReadSpec(rem).1 == 0 <==> |rem| == 0
  {
  }

  lemma HeaderFields(f: Frame, rest: Bytes)
    requires f.length <= 0xFF_FFFF
    ensures var s := HeaderOctets(f) + rest;
      BE24(s, 0) == f.length && s[3] == f.frameType && s[4] == f.flags as int && BE32(s, 5) == Low31(f.streamId)
  {
    var s := HeaderOctets(f) + rest;
    BE24At([], f.length, [f.frameType, f.flags as int] + ToBE32(Low31(f.streamId)) + rest);
    assert s == [] + ToBE24(f.length) + ([f.frameType, f.flags as int] + ToBE32(Low31(f.streamId)) + rest);
    BE32At(ToBE24(f.length) + [f.frameType, f.flags as int], Low31(f.streamId), rest);
    assert s == ToBE24(f.length) + [f.frameType, f.flags as int] + ToBE32(Low31(f.streamId)) + rest;
  }

  /**
   * Round trip: reading back a written frame yields the same length, type,
   * flags and payload, and the stream id with its top bit cleared; trailing
   * bytes stay on the stream.
   */
  lemma {:induction false} ReadWritten(f: Frame, rest: Bytes)
    requires WriteSpec(f).Ok?
    ensures ReadSpec(WriteSpec(f).value + rest) == (Ok(Some(f.(streamId := Low31(f.streamId)))), |WriteSpec(f).value|)
  {
    var s := WriteSpec(f).value + rest;
    assert s == HeaderOctets(f) + (f.payload + rest);
    HeaderFields(f, f.payload + rest);
    assert s[9..9 + f.length] == f.payload;
    assert (f.flags as int) as bv8 == f.flags;
  }

  /** The octets the writer sends for a sequence of frames, in order. */
  function Sent(fs: seq<Frame>): Bytes
  {
    if |fs| == 0 then []
    else
      var f := fs[|fs| - 1];
      Sent(fs[..|fs| - 1]) + (if WriteSpec(f).Ok? then WriteSpec(f).value else [])
  }

  lemma {:induction false} SentAppend(a: seq<Frame>, b: seq<Frame>)
    ensures Sent(a + b) == Sent(a) + Sent(b)
    decreases |b|
  {
    if |b| > 0 {
      assert (a + b)[..|a + b| - 1] == a + b[..|b| - 1];
      assert (a + b)[|a + b| - 1] == b[|b| - 1];
      SentAppend(a, b[..|b| - 1]);
    } else {
      assert a + b == a;
    }
  }

  /** Output that grew by the frames `a` and then by the frames `b` grew by `a + b`. */
  lemma SentAfter(start: Bytes, mid: Bytes, end: Bytes, a: seq<Frame>, b: seq<Frame>)
    requires mid == start + Sent(a) && end == mid + Sent(b)
    ensures end == start + Sent(a + b)
  {
    SentAppend(a, b);
  }

  /** A single frame sends its own octets. */
  lemma SentOne(f: Frame)
    ensures Sent([f]) == if WriteSpec(f).Ok? then WriteSpec(f).value else []
  {
    assert [f][..0] == [];
  }

  /** Overwriting `b` at `j` with `d` extends the slice from `i` by `d` and keeps what precedes `i`. */
  lemma Spliced(b: Bytes, c: Bytes, i: nat, j: nat, d: Bytes)
    requires i <= j && j + |d| <= |b|
    requires c == b[..j] + d + b[j + |d|..]
    ensures c[i..j + |d|] == b[i..j] + d
    ensures c[..i] == b[..i]
  {
    assert c[i..j + |d|] == c[i..j] + c[j..j + |d|];
  }

  class FrameReader {
    const stream: Channel
    const headerBuffer: array<byte>

    ghost predicate Valid()
      reads this, stream
    {
      stream.Valid() && headerBuffer.Length == 9
    }

    constructor (stream: Channel)
      requires stream.Valid()
      ensures Valid() && this.stream == stream && fresh(headerBuffer)
    {
      this.stream := stream;
      headerBuffer := new byte[9];
    }

    /**
     * ReadExactAsync: repeated reads until `count` bytes arrived or the stream
     * ended; the result is the number of bytes read.
     */
    method ReadExact(buffer: array<byte>, offset: nat, count: nat) returns (n: nat)
      requires stream.Valid() && offset + count <= buffer.Length
      modifies stream, buffer
      ensures stream.Valid() && stream.input == old(stream.input) && stream.output == old(stream.output)
      ensures stream.disposed == old(stream.disposed)
      ensures n == if count <= |old(stream.Remaining())| then count else |old(stream.Remaining())|
      ensures stream.pos == old(stream.pos) + n
      ensures buffer[offset..offset + n] == stream.input[old(stream.pos)..stream.pos]
      ensures buffer[..offset] == old(buffer[..offset])
    {
      ghost var start := stream.pos;
      n := 0;
      while n < count
        invariant stream.Valid() && stream.input == old(stream.input) && stream.output == old(stream.output)
        invariant stream.disposed == old(stream.disposed)
        invariant n <= count && stream.pos == start + n
        invariant buffer[offset..offset + n] == stream.input[start..stream.pos]
        invariant buffer[..offset] == old(buffer[..offset])
        decreases count - n
      {
        ghost var before := buffer[..];
        ghost var at := stream.pos;
        var got := stream.Read(buffer, offset + n, count - n);
        if got == 0 {
          assert stream.pos == |stream.input|;
          return;
        }
        Spliced(before, buffer[..], offset, offset + n, stream.input[at..stream.pos]);
        assert stream.input[start..stream.pos] == stream.input[start..at] + stream.input[at..stream.pos];
        n := n + got;
      }
    }

    /** ReadFrameAsync: one frame, nothing at the end of the stream, or an IOException. */
    method ReadFrame() returns (r: Result<Option<Frame>>)
      requires Valid()
      modifies stream, headerBuffer
      ensures Valid() && stream.input == old(stream.input) && stream.output == old(stream.output)
      ensures stream.disposed == old(stream.disposed)
      ensures (r, stream.pos - old(stream.pos)) == ReadSpec(old(stream.Remaining()))
    {
      ghost var start := stream.pos;
      ghost var rem := stream.Remaining();
      var got := ReadExact(headerBuffer, 0, 9);
      if got == 0 {
        return Ok(None);
      }
      if got < 9 {
        return Err(IOError);
      }
      var header := headerBuffer[..];
      SameHeader(stream.input, start, header);
      // Length from bytes 0-2, Type, Flags, then ReadInt32BigEndian & 0x7FFFFFFF.
      var length := BE24(header, 0);
      var frameType := header[3];
      var flags := header[4] as bv8;
      var streamId := Low31(BE32(header, 5));
      var payload := new byte[length];
      if length > 0 {
        var more := ReadExact(payload, 0, length);
        if more < length {
          return Err(IOError);
        }
        assert payload[..] == payload[0..length];
      }
      SamePayload(stream.input, start, length, payload[..]);
      r := Ok(Some(Frame(length, frameType, flags, streamId, payload[..])));
      ReadSpecFrame(rem);
    }
  }

  class FrameWriter {
    const stream: Channel
    const headerBuffer: array<byte>

    ghost predicate Valid()
      reads this, stream
    {
      stream.Valid() && headerBuffer.Length == 9
    }

    constructor (stream: Channel)
      requires stream.Valid()
      ensures Valid() && this.stream == stream && fresh(headerBuffer)
    {
      this.stream := stream;
      headerBuffer := new byte[9];
    }

    /** WriteFrameAsync: validates Length, then writes the header and the payload. */
    method WriteFrame(f: Frame) returns (r: Result<()>)
      requires Valid()
      modifies stream, headerBuffer
      ensures Valid() && stream.input == old(stream.input) && stream.pos == old(stream.pos)
      ensures stream.disposed == old(stream.disposed)
      ensures r.Ok? == WriteSpec(f).Ok?
      ensures stream.output == old(stream.output) + (if WriteSpec(f).Ok? then WriteSpec(f).value else [])
      ensures r.Err? ==> stream.output == old(stream.output)
    {
      if f.length > 0xFF_FFFF {
        return Err(ArgumentError);
      }
      if |f.payload| != f.length {
        return Err(ArgumentError);
      }
      // Length >> 16, >> 8 and the low byte, then WriteInt32BigEndian(StreamId & 0x7FFFFFFF).
      var lengthOctets := ToBE24(f.length);
      var idOctets := ToBE32(Low31(f.streamId));
      headerBuffer[0] := lengthOctets[0];
      headerBuffer[1] := lengthOctets[1];
      headerBuffer[2] := lengthOctets[2];
      headerBuffer[3] := f.frameType;
      headerBuffer[4] := f.flags as int;
      headerBuffer[5] := idOctets[0];
      headerBuffer[6] := idOctets[1];
      headerBuffer[7] := idOctets[2];
      headerBuffer[8] := idOctets[3];
      assert headerBuffer[..] == HeaderOctets(f);
      stream.Write(headerBuffer[..]);
      if |f.payload| > 0 {
        stream.Write(f.payload);
      } else {
        assert f.payload == [];
      }
      return Ok(());
    }

    /** WriteClientPrefaceAsync: exactly the 24 preface octets. */
    method WriteClientPreface()
      requires Valid()
      modifies stream
      ensures Valid() && stream.input == old(stream.input) && stream.pos == old(stream.pos)
      ensures stream.disposed == old(stream.disposed)
      ensures stream.output == old(stream.output) + ClientPreface
    {
      stream.Write(ClientPreface);
    }
  }
}
