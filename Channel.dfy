/**
 * A connection's byte stream. What the peer sends is fixed in advance
 * (`input`); a cursor (`pos`) says how much of it has been consumed, and
 * everything written to the stream accumulates in `output`.
 *
 * A read asks for at most `count` bytes and receives some non-empty prefix of
 * what is left (the length is chosen by the network), or nothing at the end of
 * the stream. Every `Stream.ReadAsync` of the system is a call to `Read`.
 */
module Channel {
  import opened Common

  class Channel {
    var input: Bytes
    var pos: nat
    var output: Bytes
    var disposed: bool

    ghost predicate Valid()
      reads this
    {
      pos <= |input|
    }

    /** The bytes the peer has sent that were not read yet. */
    function Remaining(): Bytes
      reads this
      requires Valid()
    {
      input[pos..]
    }

    constructor (input: Bytes)
      ensures Valid() && this.input == input && pos == 0 && output == [] && !disposed
    {
      this.input := input;
      pos := 0;
      output := [];
      disposed := false;
    }

    /**
     * Stream.Read(buffer, offset, count): copies between 1 and `count` of the
     * remaining bytes into `buffer[offset..]`, and returns 0 only when `count`
     * is 0 or nothing remains.
     */
    method Read(buffer: array<byte>, offset: nat, count: nat) returns (n: nat)
      requires Valid() && offset + count <= buffer.Length
      modifies this`pos, buffer
      ensures Valid() && n <= count && pos == old(pos) + n
      ensures n == 0 <==> count == 0 || old(pos) == |input|
      ensures buffer[..] == old(buffer[..offset]) + input[old(pos)..pos] + old(buffer[offset + n..])
    {
      var avail := |input| - pos;
      var most := if count < avail then count else avail;
      if most == 0 {
        return 0;
      }
      n :| 1 <= n <= most;
      forall i | offset <= i < offset + n {
        buffer[i] := input[pos + i - offset];
      }
      pos := pos + n;
    }

    /** Stream.ReadByte: the next byte, or -1 at the end of the stream. */
    method ReadByte() returns (b: int)
      requires Valid()
      modifies this`pos
      ensures Valid()
      ensures old(pos) == |input| ==> b == -1 && pos == old(pos)
      ensures old(pos) < |input| ==> b == input[old(pos)] && pos == old(pos) + 1
    {
      if pos == |input| {
        return -1;
      }
      b := input[pos];
      pos := pos + 1;
    }

    /** Stream.Write: the bytes are appended to what the peer receives. */
    method Write(data: Bytes)
      requires Valid()
      modifies this`output
      ensures output == old(output) + data
    {
      output := output + data;
    }

    /** Stream.Dispose: the connection is closed. */
    method Dispose()
      requires Valid()
      modifies this`disposed
      ensures disposed
    {
      disposed := true;
    }
  }
}
