/**
 * StreamLineReader (WRM/WRM.Core/Tools): reads a stream one byte at a time
 * up to a line feed. The line feed ends the line and is not part of it,
 * every carriage return is dropped wherever it appears, and the kept bytes
 * are decoded as ASCII. At the end of the stream the reader returns null,
 * even when part of a line was already read; those bytes are lost.
 */
module LineReader {
  import opened Common
  import opened Channel

  const LF: byte := 10
  const CR: byte := 13

  /** What one ReadLineAsync call keeps and consumes of what remains, or None when the stream ends first. */
  datatype Line = Line(kept: Bytes, used: nat)

  function NextLine(rest: Bytes): (r: Option<Line>)
    ensures r.Some? ==> 1 <= r.value.used <= |rest| && rest[r.value.used - 1] == LF
  {
    if rest == [] then None
    else if rest[0] == LF then Some(Line([], 1))
    else
      match NextLine(rest[1..])
      case None => None
      case Some(line) => Some(Line(if rest[0] == CR then line.kept else [rest[0]] + line.kept, line.used + 1))
  }

  /** The bytes other than carriage returns, in order: the reference the reader is compared with. */
  function DropCR(b: Bytes): (r: Bytes)
    ensures CR !in r && |r| <= |b|
    ensures LF !in b ==> LF !in r
  {
    if b == [] then [] else (if b[0] == CR then [] else [b[0]]) + DropCR(b[1..])
  }

  /**
   * A line is everything before the first line feed, less its carriage
   * returns, and the reader consumes exactly through that line feed.
   */
  lemma {:induction false} NextLineOf(line: Bytes, rest: Bytes)
    requires LF !in line
    ensures NextLine(line + [LF] + rest) == Some(Line(DropCR(line), |line| + 1))
  {
    var s := line + [LF] + rest;
    if line != [] {
      assert s[0] == line[0] && line[0] != LF;
      assert s[1..] == line[1..] + [LF] + rest;
      assert LF !in line[1..];
      NextLineOf(line[1..], rest);
      NextLineStep(s);
      assert DropCR(line) == (if line[0] == CR then [] else [line[0]]) + DropCR(line[1..]);
    } else {
      assert s[0] == LF;
    }
  }

  /** The reader returns null exactly when no line feed is left. */
  lemma {:induction false} NoLineAtEnd(rest: Bytes)
    ensures NextLine(rest) == None <==> LF !in rest
  {
    if rest != [] && rest[0] != LF {
      NoLineAtEnd(rest[1..]);
      assert rest == [rest[0]] + rest[1..];
    }
  }

  /** `rest` read as: the bytes kept so far, `used` bytes consumed, then the reader's outcome on what is left. */
  function After(kept: Bytes, used: nat, tail: Option<Line>): Option<Line>
  {
    match tail
    case None => None
    case Some(line) => Some(Line(kept + line.kept, used + line.used))
  }

  /** One byte read: a line feed ends the line, any other byte is kept or dropped and the rest follows. */
  lemma {:induction false} NextLineStep(rest: Bytes)
    requires rest != []
    ensures rest[0] == LF ==> NextLine(rest) == Some(Line([], 1))
    ensures rest[0] != LF ==> NextLine(rest) == After(if rest[0] == CR then [] else [rest[0]], 1, NextLine(rest[1..]))
  {
    if rest[0] != LF {
      match NextLine(rest[1..])
      case None =>
      case Some(l) =>
        assert NextLine(rest) == Some(Line(if rest[0] == CR then l.kept else [rest[0]] + l.kept, l.used + 1));
        assert [] + l.kept == l.kept;
    }
  }

  /**
   * NextLine on the input from position `p` on, counted by position rather
   * than by the remaining bytes, so that proofs about a stream that moves
   * forward never compare two suffixes of its input.
   */
  function LineAt(input: Bytes, p: nat): (r: Option<Line>)
    requires p <= |input|
    ensures r.Some? ==> 1 <= r.value.used <= |input| - p
    decreases |input| - p
  {
    if p == |input| then None
    else if input[p] == LF then Some(Line([], 1))
    else After(if input[p] == CR then [] else [input[p]], 1, LineAt(input, p + 1))
  }

  lemma {:induction false} LineAtIs(input: Bytes, p: nat)
    requires p <= |input|
    ensures LineAt(input, p) == NextLine(input[p..])
    decreases |input| - p
  {
    if p < |input| {
      LineAtIs(input, p + 1);
      assert input[p..][1..] == input[p + 1..];
      NextLineStep(input[p..]);
    }
  }

  /** `stream.ReadAsync(buf)` with a one-byte buffer: the next byte, or None at the end of the stream. */
  method ReadOne(stream: Channel) returns (b: Option<byte>)
    requires stream.Valid()
    modifies stream`pos
    ensures stream.Valid()
    ensures old(stream.pos) == |stream.input| ==> b == None && stream.pos == old(stream.pos)
    ensures old(stream.pos) < |stream.input| ==> b == Some(stream.input[old(stream.pos)]) && stream.pos == old(stream.pos) + 1
  {
    var buf := new byte[1](_ => 0);
    var n := stream.Read(buf, 0, 1);
    if n == 0 {
      return None;
    }
    assert buf[..] == [stream.input[old(stream.pos)]];
    return Some(buf[0]);
  }

  lemma AfterAfter(k1: Bytes, u1: nat, k2: Bytes, u2: nat, tail: Option<Line>)
    ensures After(k1, u1, After(k2, u2, tail)) == After(k1 + k2, u1 + u2, tail)
  {
    if tail.Some? {
      assert k1 + (k2 + tail.value.kept) == (k1 + k2) + tail.value.kept;
    }
  }

  /**
   * ReadLineAsync: one-byte reads until a line feed; the line is the ASCII
   * text of the kept bytes, and at the end of the stream the result is null
   * with everything consumed.
   */
  method ReadLine(stream: Channel) returns (line: Option<string>)
    requires stream.Valid()
    modifies stream`pos
    ensures stream.Valid()
    ensures match NextLine(old(stream.Remaining()))
      case None => line == None && stream.pos == |stream.input|
      case Some(l) => line == Some(AsciiText(l.kept)) && stream.pos == old(stream.pos) + l.used
  {
    var buffer: seq<byte> := [];
    ghost var start := stream.pos;
    assert After([], 0, NextLine(stream.input[start..])) == NextLine(stream.input[start..]) by {
      if NextLine(stream.input[start..]).Some? {
        assert [] + NextLine(stream.input[start..]).value.kept == NextLine(stream.input[start..]).value.kept;
      }
    }
    while true
      invariant stream.Valid() && start <= stream.pos
      invariant NextLine(stream.input[start..]) == After(buffer, stream.pos - start, NextLine(stream.input[stream.pos..]))
      decreases |stream.input| - stream.pos
    {
      ghost var at := stream.pos;
      var b := ReadOne(stream);
      if b.None? {
        assert stream.input[stream.pos..] == [];
        return None;
      }
      assert stream.input[at..][1..] == stream.input[stream.pos..];
      NextLineStep(stream.input[at..]);
      if b.value == LF {
        assert buffer + [] == buffer;
        break;
      }
      AfterAfter(buffer, at - start, if b.value == CR then [] else [b.value], 1, NextLine(stream.input[stream.pos..]));
      if b.value != CR {
        buffer := buffer + [b.value];
      }
    }
    line := Some(AsciiText(buffer));
  }

  /** ReadLine, stated by the position the line is read at. */
  method ReadLineAt(stream: Channel) returns (line: Option<string>)
    requires stream.Valid()
    modifies stream`pos
    ensures stream.Valid()
    ensures old(stream.pos) <= |stream.input|
    ensures match LineAt(stream.input, old(stream.pos))
      case None => line == None && stream.pos == |stream.input|
      case Some(l) => line == Some(AsciiText(l.kept)) && stream.pos == old(stream.pos) + l.used
  {
    ghost var at := stream.pos;
    line := ReadLine(stream);
    LineAtIs(stream.input, at);
  }
}
