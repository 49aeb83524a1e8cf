/**
 * The peek streams a detection step puts in front of a connection after it
 * has read the first bytes to classify them: the bytes already read
 * (`prefix`) are handed out again before the rest of the inner stream.
 *
 * Two variants exist. ReplayStream serves a read either from the prefix or,
 * once the prefix is used up, from the inner stream, never from both.
 * SpliceStream fills one read from the rest of the prefix and then from the
 * inner stream, and writes what it reads at the start of the caller's buffer
 * whatever offset it was given.
 */
module PeekStreams {
  import opened Common
  import opened Channel

  function Min(a: nat, b: nat): nat
  {
    if a < b then a else b
  }

  /** The buffer after `data` has been copied into it at index `at`. */
  function Filled(buf: Bytes, at: nat, data: Bytes): (r: Bytes)
    requires at + |data| <= |buf|
    ensures |r| == |buf| && r[at..at + |data|] == data
    ensures r[..at] == buf[..at] && r[at + |data|..] == buf[at + |data|..]
  {
    buf[..at] + data + buf[at + |data|..]
  }

  lemma Regroup(a: Bytes, b: Bytes, c: Bytes)
    ensures a + b + c == a + (b + c)
  {
  }

  // ---------------------------------------------------------------------
  // WRM.Wrapps BufferedPeekStream
  // ---------------------------------------------------------------------

  /** Copies `data` into `buffer` from index `at`, as MemoryStream.Read does. */
  method CopyOut(data: Bytes, buffer: array<byte>, at: nat)
    requires at + |data| <= buffer.Length
    modifies buffer
    ensures buffer[..] == Filled(old(buffer[..]), at, data) && buffer[at..at + |data|] == data
  {
    forall i | at <= i < at + |data| {
      buffer[i] := data[i - at];
    }
  }

  class ReplayStream {
    const inner: Channel
    const prefix: Bytes
    /** The position of the MemoryStream over the prefix. */
    var mark: nat
    /** Where the inner stream stood when the peek stream was made. */
    ghost const start: nat

    ghost predicate Valid()
      reads this, inner
    {
      inner.Valid() && mark <= |prefix| && start <= inner.pos && (mark < |prefix| ==> inner.pos == start)
    }

    /** Every byte the reads have handed out so far, in order. */
    ghost function Delivered(): Bytes
      reads this, inner
      requires Valid()
    {
      prefix[..mark] + inner.input[start..inner.pos]
    }

    /** Everything the stream hands out over its life: the prefix, then the rest of the inner stream. */
    ghost function Whole(): Bytes
      reads this, inner
      requires Valid()
    {
      prefix + inner.input[start..]
    }

    constructor (inner: Channel, prefix: Bytes)
      requires inner.Valid()
      ensures Valid() && this.inner == inner && this.prefix == prefix && mark == 0
      ensures Delivered() == [] && Whole() == prefix + inner.Remaining()
    {
      this.inner := inner;
      this.prefix := prefix;
      mark := 0;
      start := inner.pos;
    }

    /**
     * Read: while prefix bytes remain the read is served from the prefix
     * alone (min(count, what is left) bytes); after that it goes straight to
     * the inner stream. What the reads return, taken together, is the
     * prefix followed by the inner stream, each byte once.
     */
    method Read(buffer: array<byte>, offset: nat, count: nat) returns (n: nat)
      requires Valid() && offset + count <= buffer.Length
      modifies this, inner, buffer
      ensures Valid() && inner.input == old(inner.input) && inner.output == old(inner.output)
      ensures inner.disposed == old(inner.disposed)
      ensures n <= count && Whole() == old(Whole())
      ensures buffer[..] == Filled(old(buffer[..]), offset, buffer[offset..offset + n])
      ensures Delivered() == old(Delivered()) + buffer[offset..offset + n]
      ensures n == 0 <==> count == 0 || old(Delivered()) == old(Whole())
      ensures old(mark) < |prefix| ==> inner.pos == old(inner.pos) && n == Min(count, |prefix| - old(mark))
      ensures old(mark) == |prefix| ==> mark == |prefix|
    {
      if mark < |prefix| {
        n := Min(count, |prefix| - mark);
        CopyOut(prefix[mark..mark + n], buffer, offset);
        assert prefix[..mark + n] == prefix[..mark] + prefix[mark..mark + n];
        mark := mark + n;
      } else {
        ghost var before := inner.input[start..inner.pos];
        n := inner.Read(buffer, offset, count);
        assert inner.input[start..inner.pos] == before + inner.input[old(inner.pos)..inner.pos];
        Regroup(prefix, before, inner.input[old(inner.pos)..inner.pos]);
      }
    }

    /** Write: forwarded to the inner stream unchanged. */
    method Write(data: Bytes)
      requires Valid()
      modifies inner
      ensures Valid() && inner.output == old(inner.output) + data
      ensures Delivered() == old(Delivered()) && Whole() == old(Whole())
    {
      inner.Write(data);
    }
  }

  /** What the reads have handed out is always the beginning of what the stream hands out over its life. */
  lemma ReplayInOrder(s: ReplayStream)
    requires s.Valid()
    ensures |s.Delivered()| <= |s.Whole()| && s.Delivered() == s.Whole()[..|s.Delivered()|]
  {
    var m, p := s.mark, s.inner.pos;
    if m < |s.prefix| {
      assert s.Delivered() == s.prefix[..m];
    } else {
      assert s.Whole()[..|s.Delivered()|] == s.prefix + s.inner.input[s.start..p];
    }
  }

  // ---------------------------------------------------------------------
  // WRM/WRM.Core BufferedPeekStream
  // ---------------------------------------------------------------------

  class SpliceStream {
    const inner: Channel
    const prefix: Bytes
    /** The position of the MemoryStream over the prefix. */
    var mark: nat
    /** Where the inner stream stood when the peek stream was made. */
    ghost const start: nat

    ghost predicate Valid()
      reads this, inner
    {
      inner.Valid() && mark <= |prefix| && start <= inner.pos && (mark < |prefix| ==> inner.pos == start)
    }

    /** Every byte the reads have handed out so far, in order. */
    ghost function Delivered(): Bytes
      reads this, inner
      requires Valid()
    {
      prefix[..mark] + inner.input[start..inner.pos]
    }

    /** Everything the stream hands out over its life: the prefix, then the rest of the inner stream. */
    ghost function Whole(): Bytes
      reads this, inner
      requires Valid()
    {
      prefix + inner.input[start..]
    }

    constructor (inner: Channel, prefix: Bytes)
      requires inner.Valid()
      ensures Valid() && this.inner == inner && this.prefix == prefix && mark == 0
      ensures Delivered() == [] && Whole() == prefix + inner.Remaining()
    {
      this.inner := inner;
      this.prefix := prefix;
      mark := 0;
      start := inner.pos;
    }

    /**
     * The prefix part of one read: takes min(count, what is left of the
     * prefix) bytes and copies them to `buffer[at..]`.
     */
    method TakePrefix(buffer: array<byte>, at: nat, count: nat) returns (taken: nat)
      requires Valid() && at + count <= buffer.Length
      modifies this, buffer
      ensures Valid() && inner.pos == old(inner.pos) && taken == Min(count, |prefix| - old(mark))
      ensures buffer[..] == Filled(old(buffer[..]), at, buffer[at..at + taken])
      ensures Delivered() == old(Delivered()) + buffer[at..at + taken]
    {
      taken := Min(count, |prefix| - mark);
      forall i | at <= i < at + taken {
        buffer[i] := prefix[mark + i - at];
      }
      assert buffer[at..at + taken] == prefix[mark..mark + taken];
      if taken > 0 {
        assert prefix[..mark + taken] == prefix[..mark] + prefix[mark..mark + taken];
        mark := mark + taken;
      }
    }

    /**
     * Read, as written: min(count, what is left of the prefix) bytes from
     * the prefix, then the rest of `count` from the inner stream in the same
     * call; both parts land from index 0 of the buffer, not from `offset`.
     */
    method Read(buffer: array<byte>, offset: nat, count: nat) returns (n: nat)
      requires Valid() && offset + count <= buffer.Length
      modifies this, inner, buffer
      ensures Valid() && inner.input == old(inner.input) && inner.output == old(inner.output)
      ensures inner.disposed == old(inner.disposed)
      ensures n <= count && Whole() == old(Whole())
      ensures buffer[..] == Filled(old(buffer[..]), 0, buffer[..n])
      ensures Delivered() == old(Delivered()) + buffer[..n]
      ensures n == 0 <==> count == 0 || old(Delivered()) == old(Whole())
      ensures n >= Min(count, |prefix| - old(mark))
    {
      n := SpliceAt(buffer, 0, count);
    }

    /** Read with the offset honoured: the same bytes as Read, placed at `buffer[offset..]`. */
    method ReadAt(buffer: array<byte>, offset: nat, count: nat) returns (n: nat)
      requires Valid() && offset + count <= buffer.Length
      modifies this, inner, buffer
      ensures Valid() && inner.input == old(inner.input) && inner.output == old(inner.output)
      ensures inner.disposed == old(inner.disposed)
      ensures n <= count && Whole() == old(Whole())
      ensures buffer[..] == Filled(old(buffer[..]), offset, buffer[offset..offset + n])
      ensures Delivered() == old(Delivered()) + buffer[offset..offset + n]
      ensures n == 0 <==> count == 0 || old(Delivered()) == old(Whole())
      ensures n >= Min(count, |prefix| - old(mark))
    {
      n := SpliceAt(buffer, offset, count);
    }

    /** The inner part of one read, once the prefix is used up: up to `count` bytes copied to `buffer[at..]`. */
    method TakeInner(buffer: array<byte>, at: nat, count: nat) returns (taken: nat)
      requires Valid() && mark == |prefix| && at + count <= buffer.Length
      modifies inner, buffer
      ensures Valid() && inner.input == old(inner.input) && inner.output == old(inner.output)
      ensures inner.disposed == old(inner.disposed) && taken <= count
      ensures buffer[..] == Filled(old(buffer[..]), at, buffer[at..at + taken])
      ensures Delivered() == old(Delivered()) + buffer[at..at + taken]
      ensures taken == 0 <==> count == 0 || old(inner.pos) == |inner.input|
    {
      ghost var before := inner.input[start..inner.pos];
      taken := inner.Read(buffer, at, count);
      assert inner.input[start..inner.pos] == before + inner.input[old(inner.pos)..inner.pos];
      Regroup(prefix, before, inner.input[old(inner.pos)..inner.pos]);
    }

    /** The body both reads share: the prefix part at `at`, then the inner part right after it. */
    method SpliceAt(buffer: array<byte>, at: nat, count: nat) returns (n: nat)
      requires Valid() && at + count <= buffer.Length
      modifies this, inner, buffer
      ensures Valid() && inner.input == old(inner.input) && inner.output == old(inner.output)
      ensures inner.disposed == old(inner.disposed)
      ensures n <= count && Whole() == old(Whole())
      ensures buffer[..] == Filled(old(buffer[..]), at, buffer[at..at + n])
      ensures Delivered() == old(Delivered()) + buffer[at..at + n]
      ensures n == 0 <==> count == 0 || old(Delivered()) == old(Whole())
      ensures n >= Min(count, |prefix| - old(mark))
    {
      var fromMemory := TakePrefix(buffer, at, count);
      ghost var mid := buffer[..];
      ghost var first := buffer[at..at + fromMemory];
      var readStream := 0;
      if count - fromMemory > 0 {
        readStream := TakeInner(buffer, at + fromMemory, count - fromMemory);
        ghost var second := buffer[at + fromMemory..at + fromMemory + readStream];
        FilledTwice(old(buffer[..]), at, first, second);
        Regroup(old(Delivered()), first, second);
      }
      n := fromMemory + readStream;
    }
  }

  lemma FilledTwice(buf: Bytes, at: nat, x: Bytes, y: Bytes)
    requires at + |x| + |y| <= |buf|
    ensures Filled(Filled(buf, at, x), at + |x|, y) == Filled(buf, at, x + y)
  {
  }

  /** What the reads have handed out is always the beginning of what the stream hands out over its life. */
  lemma SpliceInOrder(s: SpliceStream)
    requires s.Valid()
    ensures |s.Delivered()| <= |s.Whole()| && s.Delivered() == s.Whole()[..|s.Delivered()|]
  {
    var m, p := s.mark, s.inner.pos;
    if m < |s.prefix| {
      assert s.Delivered() == s.prefix[..m];
    } else {
      assert s.Whole()[..|s.Delivered()|] == s.prefix + s.inner.input[s.start..p];
    }
  }

  /**
   * The as-written Read ignores the offset: once the offset is at least the
   * number of bytes read, the window `buffer[offset..offset + n]` the
   * caller looks at keeps its old bytes, while ReadAt puts the bytes read
   * there. Reading the one-byte prefix [0x50] with offset 1 into a zeroed
   * two-byte buffer leaves [0] in the caller's window.
   */
  lemma OffsetIgnored(buf: Bytes, offset: nat, data: Bytes)
    requires |data| <= offset && offset + |data| <= |buf|
    ensures Filled(buf, 0, data)[offset..offset + |data|] == buf[offset..offset + |data|]
    ensures Filled(buf, offset, data)[offset..offset + |data|] == data
    ensures Filled([0, 0], 0, [0x50])[1..2] == [0] != [0x50]
  {
    var r := Filled(buf, 0, data);
    SliceOfDrop(r, |data|, offset, offset + |data|);
    SliceOfDrop(buf, |data|, offset, offset + |data|);
    assert Filled([0, 0], 0, [0x50]) == [] + [0x50] + [0];
  }

  // ---------------------------------------------------------------------
  // The stream the later steps read
  // ---------------------------------------------------------------------

  /**
   * The stream a later step reads once a detection step has put a peek
   * stream in front of `inner`: a connection whose bytes are everything
   * the peek stream hands out over its life (`whole`, the prefix and then
   * the rest of `inner`), read from the start, and whose writes go on from
   * what `inner` had written. ReplayInOrder and SpliceInOrder show that the
   * peek stream's reads hand out exactly these bytes, in this order, each
   * read a non-empty run of at most `count` of them until the end.
   */
  method Wrapped(inner: Channel, whole: Bytes) returns (c: Channel)
    ensures fresh(c) && c.Valid() && c.Remaining() == whole && c.input == whole && c.pos == 0
    ensures c.output == inner.output && c.disposed == inner.disposed
  {
    c := new Channel(whole);
    c.output := inner.output;
    c.disposed := inner.disposed;
  }

  lemma SliceOfDrop(s: Bytes, k: nat, i: nat, j: nat)
    requires k <= i <= j <= |s|
    ensures s[i..j] == s[k..][i - k..j - k]
  {
  }
}
