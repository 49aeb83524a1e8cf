/**
 * HttpRequestBodyStream (WRM.HTTP.HTTP1): the stream object over one
 * request body. Its reads are proved against the functions of
 * HttpRequestBody.
 */
module HttpRequestBodyStream {
  import opened Common
  import opened Strings
  import opened Channel
  import opened HttpRequestBody
  import LineReader

  class HttpRequestBodyStream {
    const base: Channel
    const chunked: bool
    var remaining: int
    var disposed: bool
    var endOfChunks: bool
    /** The Content-Length the body started with, and the body bytes read from the connection since. */
    ghost const length: int
    ghost var consumed: nat

    /**
     * In Content-Length mode the bytes read and the bytes still expected add
     * up to a positive length; a length of zero or less is never read from.
     */
    ghost predicate Valid()
      reads this, base
    {
      base.Valid()
      && (chunked ==> remaining == 0 && length == 0)
      && (!chunked && length > 0 ==> 0 <= remaining && consumed + remaining == length)
      && (!chunked && length <= 0 ==> remaining == length && consumed == 0)
    }

    /** The argument checks ReadAsync makes before it reads: the ones that throw. */
    predicate Refuses(buffer: array?<byte>, offset: int32, count: int32)
      reads this
    {
      disposed || buffer == null || RangeRejected(offset, count, buffer.Length)
    }

    /**
     * ReadAsync: ObjectDisposedException, ArgumentNullException or
     * ArgumentOutOfRangeException, in that order, before anything is read;
     * then the chunked decoder, or in Content-Length mode one read of at most
     * `count` and what is left of the length (none once that is zero or less),
     * which is taken off the remaining length.
     */
    method ReadAsync(buffer: array?<byte>, offset: int32, count: int32) returns (r: Result<nat>)
      requires Valid()
      modifies this`remaining, this`consumed, this`endOfChunks, base`pos, buffer
      ensures Valid()
      ensures disposed ==> r == Err(ObjectDisposed)
      ensures !disposed && buffer == null ==> r == Err(ArgumentNull)
      ensures !disposed && buffer != null && RangeRejected(offset, count, buffer.Length) ==> r == Err(ArgumentOutOfRange)
      ensures Refuses(buffer, offset, count) ==>
                base.pos == old(base.pos) && remaining == old(remaining) && consumed == old(consumed)
                && endOfChunks == old(endOfChunks) && (buffer != null ==> buffer[..] == old(buffer[..]))
      ensures !Refuses(buffer, offset, count) && chunked ==> remaining == old(remaining) && consumed == old(consumed)
      ensures !Refuses(buffer, offset, count) && chunked && old(endOfChunks) ==>
                r == Ok(0) && endOfChunks && base.pos == old(base.pos) && buffer[..] == old(buffer[..])
      ensures !Refuses(buffer, offset, count) && chunked && !old(endOfChunks) ==>
                ChunkedRead(ReadChunks(old(base.Remaining()), count as nat), r, endOfChunks, base.pos - old(base.pos),
                            old(buffer[..]), buffer[..], offset as nat)
      ensures !Refuses(buffer, offset, count) && !chunked ==>
                r.Ok? && ContentRead(old(remaining), count as nat, old(base.Remaining()), r.value)
                && base.pos == old(base.pos) + r.value && remaining == old(remaining) - r.value
                && endOfChunks == old(endOfChunks)
                && buffer[..] == old(buffer[..])[..offset] + old(base.Remaining())[..r.value] + old(buffer[..])[offset as nat + r.value..]
    {
      if disposed {
        return Err(ObjectDisposed);
      }
      if buffer == null {
        return Err(ArgumentNull);
      }
      if offset < 0 || count < 0 || offset + count > buffer.Length {
        return Err(ArgumentOutOfRange);
      }
      if chunked {
        r := ReadChunked(buffer, offset as nat, count as nat);
        return;
      }
      r := ContentLengthRead(buffer, offset as nat, count as nat);
    }

    /** The Content-Length branch of ReadAsync. */
    method ContentLengthRead(buffer: array<byte>, offset: nat, count: nat) returns (r: Result<nat>)
      requires Valid() && !chunked && offset + count <= buffer.Length
      modifies this`remaining, this`consumed, base`pos, buffer
      ensures Valid()
      ensures r.Ok? && ContentRead(old(remaining), count, old(base.Remaining()), r.value)
      ensures base.pos == old(base.pos) + r.value && remaining == old(remaining) - r.value
      ensures buffer[..] == old(buffer[..])[..offset] + old(base.Remaining())[..r.value] + old(buffer[..])[offset + r.value..]
    {
      if remaining > 0 {
        var bytesToRead := if count < remaining then count else remaining;
        var n := base.Read(buffer, offset, bytesToRead);
        remaining := remaining - n;
        consumed := consumed + n;
        return Ok(n);
      }
      assert buffer[..] == buffer[..offset] + [] + buffer[offset..];
      return Ok(0);
    }

    /**
     * Dispose(disposing): the first call, when disposing, reads the rest of
     * the body and throws it away, swallowing any failure (the rest of the
     * chunks while the body has not ended, otherwise the rest of the
     * Content-Length); the connection itself stays open. Later calls do
     * nothing.
     */
    method Dispose(disposing: bool)
      requires Valid()
      modifies this`disposed, this`remaining, this`consumed, this`endOfChunks, base`pos
      ensures Valid() && disposed
      ensures old(disposed) || !disposing ==>
                base.pos == old(base.pos) && remaining == old(remaining) && endOfChunks == old(endOfChunks)
      ensures !old(disposed) && disposing && chunked && !old(endOfChunks) ==>
                base.pos == old(base.pos) + ChunkDrain(old(base.Remaining())).0
                && endOfChunks == ChunkDrain(old(base.Remaining())).1
      ensures !old(disposed) && disposing && !(chunked && !old(endOfChunks)) ==>
                base.pos == old(base.pos) + ContentDrain(old(remaining), old(base.Remaining()))
                && remaining == old(remaining) - ContentDrain(old(remaining), old(base.Remaining()))
                && endOfChunks == old(endOfChunks)
      ensures !old(disposed) && disposing && !chunked && length > 0 && old(remaining) <= |old(base.Remaining())| ==>
                consumed == length && remaining == 0
    {
      if !disposed {
        if disposing {
          if chunked && !endOfChunks {
            DrainRemainingChunks();
          } else if remaining > 0 {
            DrainRemainingContent();
          }
        }
        disposed := true;
      }
    }

    /**
     * DrainRemainingChunks: 8192-byte chunked reads until the body ends, a
     * read returns nothing, or one fails (the failure ends the drain).
     */
    method DrainRemainingChunks()
      requires Valid() && !endOfChunks
      modifies this`endOfChunks, base`pos
      ensures Valid()
      ensures base.pos == old(base.pos) + ChunkDrain(old(base.Remaining())).0
      ensures endOfChunks == ChunkDrain(old(base.Remaining())).1
    {
      var buffer := new byte[DrainSize];
      ghost var start := base.pos;
      ghost var whole := ChunkDrain(base.Remaining());
      while !endOfChunks
        invariant Valid() && start <= base.pos
        invariant !endOfChunks ==> whole == (base.pos - start + ChunkDrain(base.Remaining()).0, ChunkDrain(base.Remaining()).1)
        invariant endOfChunks ==> whole == (base.pos - start, true)
        decreases |base.input| - base.pos, !endOfChunks
      {
        var r := DrainRead(buffer);
        if r.Err? || r.value == 0 {
          return;
        }
      }
    }

    /** One read of the drain loop, seen from the drain. */
    method DrainRead(buffer: array<byte>) returns (r: Result<nat>)
      requires base.Valid() && !endOfChunks && buffer.Length == DrainSize
      modifies this`endOfChunks, base`pos, buffer
      ensures base.Valid() && old(base.pos) <= base.pos
      ensures r.Err? || r.value == 0 || endOfChunks ==>
                ChunkDrain(old(base.Remaining())) == (base.pos - old(base.pos), endOfChunks)
      ensures r.Ok? && r.value > 0 && !endOfChunks ==>
                old(base.pos) < base.pos
                && ChunkDrain(old(base.Remaining())) == (base.pos - old(base.pos) + ChunkDrain(base.Remaining()).0, ChunkDrain(base.Remaining()).1)
    {
      ghost var x := base.Remaining();
      ghost var was := buffer[..];
      ghost var c := ReadChunks(x, DrainSize);
      assert ChunkDrain(x) == DrainAfter(x, c);
      r := ReadChunked(buffer, 0, buffer.Length);
      DrainTurn(x, c, r, endOfChunks, base.pos - old(base.pos), was, buffer[..]);
      DropDrop(base.input, old(base.pos), base.pos - old(base.pos));
    }

    /**
     * DrainRemainingContent: reads of at most 8192 bytes, and of what is left
     * of the length, until nothing is left or the peer has no more.
     */
    method DrainRemainingContent()
      requires Valid()
      modifies this`remaining, this`consumed, base`pos
      ensures Valid()
      ensures base.pos == old(base.pos) + ContentDrain(old(remaining), old(base.Remaining()))
      ensures remaining == old(remaining) - ContentDrain(old(remaining), old(base.Remaining()))
    {
      var buffer := new byte[DrainSize];
      ghost var start := base.pos;
      ghost var drained := ContentDrain(remaining, base.Remaining());
      while remaining > 0
        invariant Valid() && start <= base.pos && remaining == old(remaining) - (base.pos - start)
        invariant base.pos - start + ContentDrain(remaining, base.Remaining()) == drained
        decreases remaining
      {
        var toRead := if buffer.Length < remaining then buffer.Length else remaining;
        var n := base.Read(buffer, 0, toRead);
        if n == 0 {
          return;
        }
        remaining := remaining - n;
        consumed := consumed + n;
      }
    }

    /**
     * Construction: chunked mode when Transfer-Encoding names it; otherwise
     * the remaining length is the parsed Content-Length, or 0.
     */
    constructor (baseStream: Channel, contentLengthHeader: Option<string>, transferEncodingHeader: Option<string>)
      requires baseStream.Valid()
      ensures Valid() && base == baseStream && !disposed && !endOfChunks && consumed == 0
      ensures chunked == IsChunked(transferEncodingHeader)
      ensures remaining == InitialLength(chunked, contentLengthHeader) && length == remaining
    {
      base := baseStream;
      chunked := IsChunked(transferEncodingHeader);
      remaining := InitialLength(IsChunked(transferEncodingHeader), contentLengthHeader);
      length := InitialLength(IsChunked(transferEncodingHeader), contentLengthHeader);
      disposed := false;
      endOfChunks := false;
      consumed := 0;
    }

    /**
     * ReadLineAsync: one-byte reads until a line feed or the end of the
     * stream; the line and the bytes consumed are those `BodyLine` gives.
     */
    method ReadLine() returns (line: string)
      requires base.Valid()
      modifies base`pos
      ensures base.Valid() && old(base.pos) <= base.pos
      ensures BodyLine(old(base.Remaining()), false) == (line, base.pos - old(base.pos))
    {
      line := "";
      var foundCR := false;
      ghost var start := base.pos;
      ghost var whole := BodyLine(base.input[start..], false);
      assert whole == Shift("", 0, whole) by {
        assert "" + whole.0 == whole.0;
      }
      while true
        invariant base.Valid() && start <= base.pos
        invariant whole == Shift(line, base.pos - start, BodyLine(base.input[base.pos..], foundCR))
        decreases |base.input| - base.pos
      {
        ghost var at := base.pos;
        var b := LineReader.ReadOne(base);
        if b.None? {
          assert base.input[at..] == [];
          LineAtEnd(line, at - start, foundCR, whole);
          return;
        }
        assert base.input[at..][1..] == base.input[base.pos..];
        LineStep(base.input[at..], foundCR, line, at - start, whole);
        if b.value == CR {
          foundCR := true;
          continue;
        }
        if b.value == LF {
          return;
        }
        line := line + (if foundCR then "\r" else "") + [b.value as char];
        foundCR := false;
      }
    }

    /** ReadTrailerHeadersAsync: lines are read and dropped up to the first empty one. */
    method ReadTrailers()
      requires base.Valid()
      modifies base`pos
      ensures base.Valid() && base.pos == old(base.pos) + Trailers(old(base.Remaining()))
    {
      ghost var start := base.pos;
      while true
        invariant base.Valid() && start <= base.pos
        invariant Trailers(base.input[start..]) == base.pos - start + Trailers(base.input[base.pos..])
        decreases |base.input| - base.pos
      {
        ghost var at := base.pos;
        var line := ReadLine();
        TrailersStep(base.input, start, at, base.pos, line);
        if line == "" {
          return;
        }
      }
    }

    /**
     * The data loop of one chunk: reads of at most what is left of the chunk
     * and of the buffer until `k = min(size, count - total)` bytes have been
     * copied behind the `total` already read; the end of the stream first is
     * an error. The new total, or None on that error.
     */
    method ReadChunkData(buffer: array<byte>, offset: nat, total: nat, count: nat, size: int32) returns (r: Option<nat>)
      requires base.Valid() && 0 < size && total < count && offset + count <= buffer.Length
      modifies base`pos, buffer
      ensures base.Valid()
      ensures var k := if size < count - total then size else count - total;
        var rest := old(base.Remaining());
        if |rest| < k then r == None && base.pos == |base.input|
        else (r == Some(total + k) && base.pos == old(base.pos) + k
          && buffer[..] == old(buffer[..offset + total]) + rest[..k] + old(buffer[offset + total + k..]))
    {
      ghost var k := if size < count - total then size else count - total;
      ghost var rest := base.input[base.pos..];
      ghost var start := base.pos;
      ghost var before := buffer[..];
      var remainingInChunk: int := size;
      var got := total;
      while remainingInChunk > 0 && got < count
        invariant base.Valid() && start <= base.pos && base.pos - start == got - total && base.input == old(base.input)
        invariant total <= got <= count && remainingInChunk == size - (got - total) && got - total <= k && got - total <= |rest|
        invariant buffer[..] == before[..offset + total] + rest[..got - total] + before[offset + got..]
        decreases count - got
      {
        var toRead := if remainingInChunk < count - got then remainingInChunk else count - got;
        var n := ReadMore(buffer, offset + total, got - total, toRead, before, rest, start);
        if n == 0 {
          return None;
        }
        got := got + n;
        remainingInChunk := remainingInChunk - n;
      }
      return Some(got);
    }

    /** One read into the chunk's data: `j` bytes of `rest` are at `lo` already, and up to `count` more follow them. */
    method ReadMore(buffer: array<byte>, lo: nat, j: nat, count: nat, ghost before: Bytes, ghost rest: Bytes, ghost start: nat)
      returns (n: nat)
      requires base.Valid() && 0 < count && lo + j + count <= buffer.Length == |before| && j <= |rest|
      requires base.pos == start + j && rest == base.input[start..]
      requires buffer[..] == before[..lo] + rest[..j] + before[lo + j..]
      modifies base`pos, buffer
      ensures base.Valid() && base.input == old(base.input) && base.pos == old(base.pos) + n
      ensures n <= count && j + n <= |rest| && (n == 0 <==> j == |rest|)
      ensures buffer[..] == before[..lo] + rest[..j + n] + before[lo + j + n..]
    {
      ghost var was := buffer[..];
      ghost var at := base.pos;
      n := base.Read(buffer, lo + j, count);
      assert at == start + j && base.pos == at + n;
      assert base.input[at..base.pos] == rest[j..j + n];
      CopyMore(before, rest, lo, j, n, was, buffer[..]);
    }

    /**
     * ReadChunkedAsync: nothing once the body has ended; otherwise turns of
     * the chunk loop until `count` bytes are read or the body ends. The
     * outcome, the bytes consumed and the data written at `offset` are those
     * of `ReadChunks`, and the end of the body is remembered.
     */
    method ReadChunked(buffer: array<byte>, offset: nat, count: nat) returns (r: Result<nat>)
      requires base.Valid() && offset + count <= buffer.Length
      modifies this`endOfChunks, base`pos, buffer
      ensures base.Valid()
      ensures old(endOfChunks) ==> r == Ok(0) && endOfChunks && base.pos == old(base.pos) && buffer[..] == old(buffer[..])
      ensures !old(endOfChunks) ==>
                ChunkedRead(ReadChunks(old(base.Remaining()), count), r, endOfChunks, base.pos - old(base.pos), old(buffer[..]), buffer[..], offset)
    {
      if endOfChunks {
        return Ok(0);
      }
      r := ChunkLoop(buffer, offset, count);
    }

    /** The loop of ReadChunkedAsync, entered before the body has ended. */
    method ChunkLoop(buffer: array<byte>, offset: nat, count: nat) returns (r: Result<nat>)
      requires base.Valid() && offset + count <= buffer.Length && !endOfChunks
      modifies this`endOfChunks, base`pos, buffer
      ensures base.Valid()
      ensures ChunkedRead(ReadChunks(old(base.Remaining()), count), r, endOfChunks, base.pos - old(base.pos), old(buffer[..]), buffer[..], offset)
    {
      ghost var whole := ReadChunks(base.Remaining(), count);
      ghost var start := base.pos;
      ghost var before := buffer[..];
      ghost var got: Bytes := [];
      var total: nat := 0;
      StartRead(whole, before, offset);
      while total < count
        invariant base.Valid() && start <= base.pos && !endOfChunks && total == |got| && total <= count
        invariant Progress(whole, got, base.pos - start, before, buffer[..], offset, ReadRest(base.Remaining(), count - total))
        decreases |base.input| - base.pos
      {
        var t;
        t, got := Advance(buffer, offset, total, count, whole, start, before, got);
        if t == Ended {
          endOfChunks := true;
          r := Ok(total);
          assert ChunkedRead(whole, r, endOfChunks, base.pos - start, before, buffer[..], offset);
          return;
        }
        if t == Failed {
          r := Err(InvalidData);
          assert ChunkedRead(whole, r, endOfChunks, base.pos - start, before, buffer[..], offset);
          return;
        }
        total := total + t.n;
      }
      FilledRead(whole, got, base.pos - start, before, buffer[..], offset);
      return Ok(total);
    }

    /**
     * One turn of the chunk loop, seen from the whole read: after the turn
     * the read has ended or failed as `whole` says, or the data read so far
     * has grown by the turn's data.
     */
    method Advance(buffer: array<byte>, offset: nat, total: nat, count: nat,
                   ghost whole: Chunked, ghost start: nat, ghost before: Bytes, ghost got: Bytes) returns (t: Turn, ghost more: Bytes)
      requires base.Valid() && total < count && total == |got| && start <= base.pos && offset + count <= buffer.Length
      requires Progress(whole, got, base.pos - start, before, buffer[..], offset, ReadRest(base.Remaining(), count - total))
      modifies base`pos, buffer
      ensures base.Valid()
      ensures !t.Got? ==> ChunkedRead(whole, if t.Ended? then Ok(total) else Err(InvalidData), t.Ended?, base.pos - start, before, buffer[..], offset)
      ensures t.Got? ==> old(base.pos) < base.pos && |more| == total + t.n && total + t.n <= count
                         && Progress(whole, more, base.pos - start, before, buffer[..], offset, ReadRest(base.Remaining(), count - total - t.n))
    {
      ghost var x := base.Remaining();
      ghost var was := buffer[..];
      ghost var at := base.pos;
      ghost var d;
      t, d := TakeTurn(buffer, offset, total, count);
      TurnAdvances(whole, got, at - start, before, was, offset, x, count - total, t, base.pos - at, d, buffer[..],
                   offset + total, base.Remaining(), base.pos - start);
      more := got + d;
    }

    /**
     * One turn of the chunk loop with `count - total` bytes of buffer left:
     * the size line, then the trailers after a zero size, or the data (none
     * for a negative size) and the line after it, written behind `total`.
     * Seen from the read it starts, the turn is as `TurnRead` says.
     */
    method TakeTurn(buffer: array<byte>, offset: nat, total: nat, count: nat) returns (t: Turn, ghost d: Bytes)
      requires base.Valid() && total < count && offset + count <= buffer.Length
      modifies base`pos, buffer
      ensures base.Valid() && old(base.pos) <= base.pos
      ensures TurnRead(old(base.Remaining()), count - total, t, base.pos - old(base.pos), d, old(buffer[..]), buffer[..], offset + total, base.Remaining())
    {
      ghost var x := base.Remaining();
      d := [];
      var line := ReadLine();
      ghost var u := base.pos - old(base.pos);
      if line == "" {
        EmptyLineRead(x, count - total, u);
        t := Ended;
        return;
      }
      var size := ChunkSize(line);
      if size.None? {
        BadSizeRead(x, count - total, line, u);
        t := Failed;
        return;
      }
      DropDrop(base.input, old(base.pos), u);
      t, d := SizedTurn(buffer, offset, total, count, size.value, x, u, line, old(base.pos));
    }

    /** The rest of a turn that started at `start` once its size line, `u` bytes of `rest`, gave a size. */
    method SizedTurn(buffer: array<byte>, offset: nat, total: nat, count: nat, size: int32,
                     ghost rest: Bytes, ghost u: nat, ghost line: string, ghost start: nat) returns (t: Turn, ghost d: Bytes)
      requires base.Valid() && total < count && offset + count <= buffer.Length
      requires BodyLine(rest, false) == (line, u) && line != "" && ChunkSize(line) == Some(size)
      requires base.input[base.pos..] == rest[u..] && start + u == base.pos
      modifies base`pos, buffer
      ensures base.Valid() && old(base.pos) <= base.pos
      ensures TurnRead(rest, count - total, t, base.pos - start, d, old(buffer[..]), buffer[..], offset + total, base.Remaining())
    {
      if size == 0 {
        d := [];
        ReadTrailers();
        ZeroSizeRead(rest, count - total, line, u, base.pos - start);
        return Ended, d;
      }
      t, d := DataTurn(buffer, offset, total, count, size, rest, u, line, start);
    }

    /** The data of a chunk of non-zero size and the line after it. */
    method DataTurn(buffer: array<byte>, offset: nat, total: nat, count: nat, size: int32,
                    ghost rest: Bytes, ghost u: nat, ghost line: string, ghost start: nat) returns (t: Turn, ghost d: Bytes)
      requires base.Valid() && size != 0 && total < count && offset + count <= buffer.Length
      requires BodyLine(rest, false) == (line, u) && line != "" && ChunkSize(line) == Some(size)
      requires base.input[base.pos..] == rest[u..] && start + u == base.pos
      modifies base`pos, buffer
      ensures base.Valid() && old(base.pos) <= base.pos
      ensures TurnRead(rest, count - total, t, base.pos - start, d, old(buffer[..]), buffer[..], offset + total, base.Remaining())
    {
      ghost var p0, r, was := base.pos, base.Remaining(), buffer[..];
      var k := ChunkBody(buffer, offset, total, count, size);
      ghost var m := base.pos - p0;
      DropDrop(base.input, p0, m);
      if k.None? {
        t := Failed;
        d := DataTurnFrom(rest, u, line, size, count - total, r, ChunkTake(size, count - total), k, t, m, base.pos - start,
                          was, buffer[..], offset + total, base.Remaining());
      } else {
        t := Got(k.value);
        d := DataTurnFrom(rest, u, line, size, count - total, r, ChunkTake(size, count - total), k, t, m, base.pos - start,
                          was, buffer[..], offset + total, base.Remaining());
      }
    }

    /**
     * The data of a chunk of non-zero size, none for a negative one, and the
     * line after it; None when the stream ends inside the data.
     */
    method ChunkBody(buffer: array<byte>, offset: nat, total: nat, count: nat, size: int32) returns (k: Option<nat>)
      requires base.Valid() && size != 0 && total < count && offset + count <= buffer.Length
      modifies base`pos, buffer
      ensures base.Valid()
      ensures old(base.pos) <= base.pos
      ensures DataTaken(old(base.Remaining()), ChunkTake(size, count - total), k, base.pos - old(base.pos),
                        old(buffer[..]), buffer[..], offset + total)
    {
      ghost var rest := base.input[base.pos..];
      ghost var before := buffer[..];
      var got := 0;
      if size > 0 {
        var r := ReadChunkData(buffer, offset, total, count, size);
        if r.None? {
          return None;
        }
        got := r.value - total;
      } else {
        assert before[..offset + total] + [] + before[offset + total..] == before;
      }
      assert base.input[base.pos..] == rest[got..];
      var after := ReadLine();
      return Some(got);
    }
  }
}
