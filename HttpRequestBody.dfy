/**
 * HttpRequestBodyStream (WRM.HTTP.HTTP1): the body of one HTTP/1.1 request,
 * framed either by Content-Length or by the chunked transfer coding of
 * section 4.1 of RFC 7230, read from the connection's stream.
 *
 * The chunked decoder is specified by functions of the bytes that remain on
 * the connection: `BodyLine` is one line as the stream's own line reader
 * returns it, `NextPiece` is one turn of the chunk loop and `ReadChunks`
 * one whole ReadAsync call with `room` bytes of buffer space.
 */
module HttpRequestBody {
  import opened Common
  import opened Strings
  import opened Decimal
  import opened Channel
  import LineReader

  const LF: byte := 10
  const CR: byte := 13
  /** The buffer size the drain helpers read with. */
  const DrainSize: nat := 8192

  /** `(char)b` for each byte. */
  function Chars(b: Bytes): (s: string)
    ensures |s| == |b| && forall i :: 0 <= i < |b| ==> s[i] == b[i] as char
  {
    seq(|b|, i requires 0 <= i < |b| => b[i] as char)
  }

  // ---------------------------------------------------------------------
  // ReadLineAsync
  // ---------------------------------------------------------------------

  /**
   * The line ReadLineAsync returns from `rest`, and how many bytes it
   * consumes. `pending` says that a carriage return was read and held back:
   * it is kept only when a byte other than CR or LF follows, so a run of
   * carriage returns before such a byte yields a single one. A line feed
   * ends the line, and the end of the stream returns what was read so far.
   */
  function BodyLine(rest: Bytes, pending: bool): (r: (string, nat))
    ensures r.1 <= |rest|
    ensures |r.0| <= r.1 + (if pending then 1 else 0)
  {
    if rest == [] then ("", 0)
    else if rest[0] == CR then
      var t := BodyLine(rest[1..], true);
      (t.0, t.1 + 1)
    else if rest[0] == LF then ("", 1)
    else
      var t := BodyLine(rest[1..], false);
      ((if pending then "\r" else "") + [rest[0] as char] + t.0, t.1 + 1)
  }

  /** A line read so far and the bytes consumed for it, followed by the reader's outcome on what is left. */
  function Shift(line: string, used: nat, tail: (string, nat)): (string, nat)
  {
    (line + tail.0, used + tail.1)
  }

  lemma ShiftShift(a: string, u: nat, b: string, v: nat, tail: (string, nat))
    ensures Shift(a, u, Shift(b, v, tail)) == Shift(a + b, u + v, tail)
  {
    assert a + (b + tail.0) == (a + b) + tail.0;
  }

  /** One byte read: a CR is held back, a LF ends the line, any other byte follows the held-back CR if there is one. */
  lemma BodyLineStep(rest: Bytes, pending: bool)
    requires rest != []
    ensures rest[0] == CR ==> BodyLine(rest, pending) == Shift("", 1, BodyLine(rest[1..], true))
    ensures rest[0] == LF ==> BodyLine(rest, pending) == ("", 1)
    ensures rest[0] != CR && rest[0] != LF ==>
      BodyLine(rest, pending) == Shift((if pending then "\r" else "") + [rest[0] as char], 1, BodyLine(rest[1..], false))
  {
    if rest[0] == CR {
      var t := BodyLine(rest[1..], true);
      assert BodyLine(rest, pending) == (t.0, t.1 + 1);
      assert "" + t.0 == t.0;
    } else if rest[0] != LF {
      var t := BodyLine(rest[1..], false);
      assert BodyLine(rest, pending) == ((if pending then "\r" else "") + [rest[0] as char] + t.0, t.1 + 1);
    }
  }

  /** A line of ordinary bytes ended by CR LF is read as exactly those bytes, and the CR LF is consumed. */
  lemma {:induction false} BodyLineOf(text: Bytes, rest: Bytes)
    requires CR !in text && LF !in text
    ensures BodyLine(text + [CR, LF] + rest, false) == (Chars(text), |text| + 2)
    decreases |text|
  {
    var s := text + [CR, LF] + rest;
    if text == [] {
      assert s[0] == CR && s[1..][0] == LF;
    } else {
      assert s[0] == text[0] && s[1..] == text[1..] + [CR, LF] + rest;
      BodyLineOf(text[1..], rest);
      BodyLineStep(s, false);
      assert Chars(text) == [] + [text[0] as char] + Chars(text[1..]);
    }
  }

  /** At the end of the stream the partial line is returned, never null. */
  lemma {:induction false} BodyLineAtEnd(text: Bytes)
    requires CR !in text && LF !in text
    ensures BodyLine(text, false) == (Chars(text), |text|)
    decreases |text|
  {
    if text != [] {
      BodyLineAtEnd(text[1..]);
      BodyLineStep(text, false);
      assert Chars(text) == [] + [text[0] as char] + Chars(text[1..]);
    }
  }

  /** Ordinary bytes, read with no carriage return held back, are taken into the line as they are. */
  lemma {:induction false} OrdinaryBytes(text: Bytes, tail: Bytes)
    requires CR !in text && LF !in text
    ensures BodyLine(text + tail, false) == Shift(Chars(text), |text|, BodyLine(tail, false))
    decreases |text|
  {
    if text != [] {
      var s := text + tail;
      assert s[0] == text[0] && s[1..] == text[1..] + tail;
      OrdinaryBytes(text[1..], tail);
      BodyLineStep(s, false);
      assert Chars(text) == [text[0] as char] + Chars(text[1..]);
      ShiftShift([text[0] as char], 1, Chars(text[1..]), |text| - 1, BodyLine(tail, false));
      assert "" + [text[0] as char] == [text[0] as char];
    } else {
      assert text + tail == tail && Chars(text) == "";
      assert "" + BodyLine(tail, false).0 == BodyLine(tail, false).0;
    }
  }

  /**
   * A carriage return followed by an ordinary byte stays in the line; the
   * one before the line feed does not: `a CR b CR LF` is read as
   * `a + "\r" + b`, consuming all of it.
   */
  lemma LoneCarriageReturnKept(a: Bytes, b: Bytes, rest: Bytes)
    requires CR !in a && LF !in a && CR !in b && LF !in b && b != []
    ensures BodyLine(a + [CR] + b + [CR, LF] + rest, false) == (Chars(a) + "\r" + Chars(b), |a| + |b| + 3)
  {
    var tail := [CR] + b + [CR, LF] + rest;
    assert a + [CR] + b + [CR, LF] + rest == a + tail;
    OrdinaryBytes(a, tail);
    CarriageReturnThen(tail, b, rest);
    assert Chars(a) + ("\r" + Chars(b)) == Chars(a) + "\r" + Chars(b);
  }

  /** The part of LoneCarriageReturnKept after `a`: a CR, then ordinary bytes, then CR LF. */
  lemma CarriageReturnThen(tail: Bytes, b: Bytes, rest: Bytes)
    requires CR !in b && LF !in b && b != [] && tail == [CR] + b + [CR, LF] + rest
    ensures BodyLine(tail, false) == ("\r" + Chars(b), |b| + 3)
  {
    var u := b + [CR, LF] + rest;
    var v := b[1..] + [CR, LF] + rest;
    CarriageReturnParts(tail, b, rest, u, v);
    HeldBack(tail, u);
    HeldOrdinary(u, v);
    BodyLineOf(b[1..], rest);
    CharsCons(b);
  }

  /** How the bytes after the CR split into the first ordinary byte and the rest. */
  lemma CarriageReturnParts(tail: Bytes, b: Bytes, rest: Bytes, u: Bytes, v: Bytes)
    requires CR !in b && LF !in b && b != [] && tail == [CR] + b + [CR, LF] + rest
    requires u == b + [CR, LF] + rest && v == b[1..] + [CR, LF] + rest
    ensures tail != [] && tail[0] == CR && tail[1..] == u
    ensures u != [] && u[0] == b[0] && u[0] != CR && u[0] != LF && u[1..] == v
    ensures CR !in b[1..] && LF !in b[1..]
  {
    assert b[0] in b;
  }

  lemma CharsCons(b: Bytes)
    requires b != []
    ensures "\r" + Chars(b) == "" + (("\r" + [b[0] as char]) + Chars(b[1..]))
  {
    assert Chars(b) == [b[0] as char] + Chars(b[1..]);
  }

  /** A CR read with nothing held back is held back. */
  lemma HeldBack(tail: Bytes, u: Bytes)
    requires tail != [] && tail[0] == CR && u == tail[1..]
    ensures BodyLine(tail, false) == Shift("", 1, BodyLine(u, true))
  {
    BodyLineStep(tail, false);
  }

  /** An ordinary byte after a held-back CR follows the CR into the line. */
  lemma HeldOrdinary(u: Bytes, v: Bytes)
    requires u != [] && u[0] != CR && u[0] != LF && v == u[1..]
    ensures BodyLine(u, true) == Shift("\r" + [u[0] as char], 1, BodyLine(v, false))
  {
    BodyLineStep(u, true);
  }

  // ---------------------------------------------------------------------
  // Chunked transfer coding
  // ---------------------------------------------------------------------

  /** `int.TryParse(line.Split(';')[0].Trim(), HexNumber)`: the chunk size, None when it does not parse. */
  function ChunkSize(line: string): Option<int32>
  {
    ParseHex32(Trim(Split(line, ';')[0]))
  }

  /** ReadTrailerHeadersAsync: lines are read and dropped up to the first empty one; the bytes consumed. */
  function Trailers(rest: Bytes): (n: nat)
    ensures n <= |rest|
    decreases |rest|
  {
    var line := BodyLine(rest, false);
    if line.0 == "" then line.1 else line.1 + Trailers(rest[line.1..])
  }

  /** Reading the line at `at` of `input` moves the trailers after `start` on to `pos`, or ends them there on an empty line. */
  lemma TrailersStep(input: Bytes, start: nat, at: nat, pos: nat, line: string)
    requires start <= at <= pos <= |input| && Trailers(input[start..]) == at - start + Trailers(input[at..])
    requires BodyLine(input[at..], false) == (line, pos - at)
    ensures line == "" ==> Trailers(input[start..]) == pos - start
    ensures line != "" ==> Trailers(input[start..]) == pos - start + Trailers(input[pos..])
  {
    assert input[at..][pos - at..] == input[pos..];
  }

  /**
   * One turn of the chunk loop: the last chunk (after its trailers) or an
   * empty size line ends the body; a size that does not parse, or the end of
   * the stream inside chunk data, is an error; otherwise the data read.
   */
  datatype Piece = Last(used: nat) | Broken(used: nat) | Piece(data: Bytes, used: nat)

  function NextPiece(rest: Bytes, room: nat): (p: Piece)
    requires room > 0
    ensures p.used <= |rest|
    ensures p.Piece? ==> |p.data| <= room && 1 <= p.used && |p.data| <= p.used
  {
    var line := BodyLine(rest, false);
    if line.0 == "" then Last(line.1)
    else
      match ChunkSize(line.0)
      case None => Broken(line.1)
      case Some(size) => SizedPiece(rest, room, line.1, size)
  }

  /** The data bytes a chunk of `size` gives a turn with `room` bytes of room: none for a negative size. */
  function ChunkTake(size: int32, room: nat): (k: nat)
    ensures k <= room && (size > 0 ==> k <= size)
  {
    if size < 0 then 0 else if size < room then size as nat else room
  }

  /** The rest of a turn after a size line of `u` bytes that parsed to `size`. */
  function SizedPiece(rest: Bytes, room: nat, u: nat, size: int32): (p: Piece)
    requires room > 0 && 1 <= u <= |rest|
    ensures p.used <= |rest|
    ensures p.Piece? ==> |p.data| <= room && 1 <= p.used && |p.data| <= p.used
  {
    if size == 0 then Last(u + Trailers(rest[u..]))
    else DataPiece(rest, u, ChunkTake(size, room))
  }

  /** `k` data bytes after `u` bytes of size line, then the line meant to hold the CR LF after the data. */
  function DataPiece(rest: Bytes, u: nat, k: nat): (p: Piece)
    requires 1 <= u <= |rest|
    ensures p.used <= |rest|
    ensures p.Piece? ==> |p.data| == k && 1 <= p.used && k <= p.used
  {
    if |rest| - u < k then Broken(|rest|)
    else Piece(rest[u..u + k], u + k + BodyLine(rest[u + k..], false).1)
  }

  /** The outcome of one chunked read: the data and the bytes consumed, and whether the body ended; or an error. */
  datatype Chunked = Chunked(data: Bytes, used: nat, end: bool) | ChunkError(used: nat)

  /** Data and consumed bytes of earlier turns, before a later outcome. */
  function Then(data: Bytes, used: nat, later: Chunked): Chunked
  {
    match later
    case Chunked(d, u, e) => Chunked(data + d, used + u, e)
    case ChunkError(u) => ChunkError(used + u)
  }

  lemma ThenThen(a: Bytes, u: nat, b: Bytes, v: nat, later: Chunked)
    ensures Then(a, u, Then(b, v, later)) == Then(a + b, u + v, later)
  {
    if later.Chunked? {
      assert a + (b + later.data) == (a + b) + later.data;
    }
  }

  /** ReadChunkedAsync with `room` bytes of buffer: turns of the chunk loop until the room is full or the body ends. */
  function ReadChunks(rest: Bytes, room: nat): (r: Chunked)
    ensures r.used <= |rest|
    ensures r.Chunked? ==> |r.data| <= room && |r.data| <= r.used
    decreases |rest|, 1
  {
    if room == 0 then Chunked([], 0, false) else ChunkTurns(rest, room)
  }

  /** The turns of a read that still has room: one turn, then the rest of the read after it. */
  function ChunkTurns(rest: Bytes, room: nat): (r: Chunked)
    requires room > 0
    ensures r.used <= |rest|
    ensures r.Chunked? ==> |r.data| <= room && |r.data| <= r.used
    decreases |rest|, 0
  {
    match NextPiece(rest, room)
    case Last(u) => Chunked([], u, true)
    case Broken(u) => ChunkError(u)
    case Piece(d, u) => Then(d, u, ReadChunks(rest[u..], room - |d|))
  }

  /** DrainRemainingChunks: 8192-byte reads until the body ends, a read returns nothing or one fails; bytes consumed and whether the end was reached. */
  function ChunkDrain(rest: Bytes): (r: (nat, bool))
    ensures r.0 <= |rest|
    decreases |rest|, 1
  {
    DrainAfter(rest, ReadChunks(rest, DrainSize))
  }

  /** The drain once its first read of `rest` came back as `c`. */
  function DrainAfter(rest: Bytes, c: Chunked): (r: (nat, bool))
    requires c.used <= |rest| && (c.Chunked? ==> |c.data| <= c.used)
    ensures r.0 <= |rest|
    decreases |rest|, 0
  {
    match c
    case ChunkError(u) => (u, false)
    case Chunked(d, u, e) =>
      if e || d == [] then (u, e)
      else
        var t := ChunkDrain(rest[u..]);
        (u + t.0, t.1)
  }

  /**
   * One drain read seen from the drain: a read that fails, returns nothing or
   * ends the body ends the drain where it stopped; a read of data is
   * followed by the drain of what is left.
   */
  lemma DrainTurn(x: Bytes, c: Chunked, r: Result<nat>, ended: bool, moved: int, was: Bytes, now: Bytes)
    requires c.used <= |x| && (c.Chunked? ==> |c.data| <= c.used)
    requires ChunkedRead(c, r, ended, moved, was, now, 0)
    ensures 0 <= moved <= |x|
    ensures r.Err? || r.value == 0 || ended ==> DrainAfter(x, c) == (moved, ended)
    ensures r.Ok? && r.value > 0 && !ended ==> 0 < moved && DrainAfter(x, c) == (moved + ChunkDrain(x[moved..]).0, ChunkDrain(x[moved..]).1)
  {
  }

  /** Whether the drain of `rest` ends on a read that throws (a malformed chunk), rather than on the end of the body or of the input. */
  predicate DrainFails(rest: Bytes)
    decreases |rest|, 1
  {
    FailsAfter(rest, ReadChunks(rest, DrainSize))
  }

  /** Whether the drain fails once its first read of `rest` came back as `c`. */
  predicate FailsAfter(rest: Bytes, c: Chunked)
    requires c.used <= |rest| && (c.Chunked? ==> |c.data| <= c.used)
    decreases |rest|, 0
  {
    match c
    case ChunkError(_) => true
    case Chunked(d, u, e) => !e && d != [] && DrainFails(rest[u..])
  }

  /** DrainTurn for the failure: only a read that throws makes the drain fail there. */
  lemma DrainTurnFails(x: Bytes, c: Chunked, r: Result<nat>, ended: bool, moved: int, was: Bytes, now: Bytes)
    requires c.used <= |x| && (c.Chunked? ==> |c.data| <= c.used)
    requires ChunkedRead(c, r, ended, moved, was, now, 0)
    ensures r.Err? ==> FailsAfter(x, c)
    ensures r.Ok? && (r.value == 0 || ended) ==> !FailsAfter(x, c)
    ensures r.Ok? && r.value > 0 && !ended ==> 0 <= moved <= |x| && FailsAfter(x, c) == DrainFails(x[moved..])
  {
  }

  /** One chunk as a sender writes it: the size in hexadecimal, CR LF, the data, CR LF. */
  function EncodeChunk(c: Bytes): Bytes
  {
    AsciiBytes(HexDigits(|c|)) + [CR, LF] + c + [CR, LF]
  }

  /** A whole chunked body: the chunks, then the last chunk "0" and the empty trailer line. */
  function EncodeChunks(chunks: seq<Bytes>): Bytes
  {
    if chunks == [] then AsciiBytes(HexDigits(0)) + [CR, LF] + [CR, LF]
    else EncodeChunk(chunks[0]) + EncodeChunks(chunks[1..])
  }

  function Concat(chunks: seq<Bytes>): Bytes
  {
    if chunks == [] then [] else chunks[0] + Concat(chunks[1..])
  }

  /** The digits of a size, as bytes, contain no line break and read back as that text. */
  lemma SizeLine(n: nat)
    ensures var h := AsciiBytes(HexDigits(n)); CR !in h && LF !in h && Chars(h) == HexDigits(n)
  {
    var s := HexDigits(n);
    var h := AsciiBytes(s);
    assert forall i :: 0 <= i < |h| ==> h[i] == s[i] as int && '0' <= s[i] as char;
    assert Chars(h) == s;
  }

  /** The size line of a chunk parses to its length. */
  lemma ChunkSizeOf(n: nat)
    requires n < TWO31
    ensures ChunkSize(HexDigits(n)) == Some(n)
  {
    var s := HexDigits(n);
    FirstPiece(s, ';', []);
    TrimOf([], s, []);
    assert [] + s + [] == s;
    ParseHexDigits(n);
    Wrap32Id(n);
  }

  lemma NextPieceUnfold(rest: Bytes, room: nat, line: string, u: nat, size: int32)
    requires room > 0 && BodyLine(rest, false) == (line, u) && line != "" && ChunkSize(line) == Some(size)
    ensures NextPiece(rest, room) == SizedPiece(rest, room, u, size) && 1 <= u
  {
  }

  lemma SizedPieceUnfold(rest: Bytes, room: nat, u: nat, size: int32)
    requires room > 0 && 1 <= u <= |rest| && size > 0
    ensures SizedPiece(rest, room, u, size) == DataPiece(rest, u, if size < room then size else room)
  {
  }

  lemma DataPieceUnfold(rest: Bytes, u: nat, k: nat)
    requires 1 <= u <= |rest| && u + k <= |rest|
    ensures DataPiece(rest, u, k) == Piece(rest[u..u + k], u + k + BodyLine(rest[u + k..], false).1)
  {
  }

  /** Where the parts of an encoded chunk lie, whatever its size line and data. */
  lemma ChunkLayout(h: Bytes, c: Bytes, more: Bytes, j: nat)
    requires j <= |c|
    ensures var s := h + [CR, LF] + c + [CR, LF] + more;
      s == h + [CR, LF] + (c + [CR, LF] + more)
      && s[|h| + 2..|h| + 2 + j] == c[..j]
      && s[|h| + 2 + j..] == c[j..] + [CR, LF] + more
  {
  }

  /** A size line giving a positive size leads to reading min(size, room) data bytes. */
  lemma EncodedToData(h: Bytes, t: Bytes, room: nat, size: int32)
    requires CR !in h && LF !in h && Chars(h) != "" && size > 0 && ChunkSize(Chars(h)) == Some(size) && room > 0
    ensures |h| + 2 <= |h + [CR, LF] + t|
    ensures NextPiece(h + [CR, LF] + t, room) == DataPiece(h + [CR, LF] + t, |h| + 2, if size < room then size else room)
  {
    BodyLineOf(h, t);
    NextPieceUnfold(h + [CR, LF] + t, room, Chars(h), |h| + 2, size);
    SizedPieceUnfold(h + [CR, LF] + t, room, |h| + 2, size);
  }

  /** The data bytes read are the chunk's first `j`, followed by one more line. */
  lemma DataOfEncoded(h: Bytes, c: Bytes, more: Bytes, j: nat)
    requires j <= |c|
    ensures var s := h + [CR, LF] + (c + [CR, LF] + more);
      |h| + 2 <= |s| && DataPiece(s, |h| + 2, j) == Piece(c[..j], |h| + 2 + j + BodyLine(c[j..] + [CR, LF] + more, false).1)
  {
    var s := h + [CR, LF] + (c + [CR, LF] + more);
    assert s[|h| + 2..|h| + 2 + j] == c[..j] && s[|h| + 2 + j..] == c[j..] + [CR, LF] + more;
    DataPieceUnfold(s, |h| + 2, j);
  }

  /** One turn over a chunk whose size line `h` gives its length: the first min(|c|, room) bytes, then one line. */
  lemma PieceOfEncoded(h: Bytes, c: Bytes, more: Bytes, room: nat, j: nat)
    requires CR !in h && LF !in h && Chars(h) != "" && 0 < |c| < TWO31 && ChunkSize(Chars(h)) == Some(|c|)
    requires room > 0 && j == (if |c| < room then |c| else room)
    ensures NextPiece(h + [CR, LF] + (c + [CR, LF] + more), room) == Piece(c[..j], |h| + 2 + j + BodyLine(c[j..] + [CR, LF] + more, false).1)
  {
    EncodedToData(h, c + [CR, LF] + more, room, |c|);
    DataOfEncoded(h, c, more, j);
  }

  /** An encoded chunk is its size line, CR LF, then the data and what follows it. */
  lemma EncodeChunkShape(c: Bytes, more: Bytes)
    ensures var h := AsciiBytes(HexDigits(|c|));
      EncodeChunk(c) + more == h + [CR, LF] + (c + [CR, LF] + more) && |EncodeChunk(c)| == |h| + |c| + 4
  {
  }

  /** The size line of a chunk as a sender writes it: no line break, and it parses to the chunk's length. */
  lemma SizeLineOf(n: nat)
    requires n < TWO31
    ensures var h := AsciiBytes(HexDigits(n)); CR !in h && LF !in h && Chars(h) != "" && ChunkSize(Chars(h)) == Some(n)
  {
    SizeLine(n);
    ChunkSizeOf(n);
  }

  /** A turn over a chunk that fits in the room reads all of it and consumes its encoding exactly. */
  lemma PieceOfEncodedChunk(h: Bytes, c: Bytes, more: Bytes, room: nat)
    requires CR !in h && LF !in h && Chars(h) != "" && 0 < |c| <= room && |c| < TWO31 && ChunkSize(Chars(h)) == Some(|c|)
    ensures var p := NextPiece(h + [CR, LF] + (c + [CR, LF] + more), room); p.Piece? && p.data == c && p.used == |h| + |c| + 4
  {
    PieceOfEncoded(h, c, more, room, |c|);
    assert c[|c|..] + [CR, LF] + more == [] + [CR, LF] + more;
    BodyLineOf([], more);
    assert c[..|c|] == c;
  }

  lemma SizedPieceZero(rest: Bytes, room: nat, u: nat)
    requires room > 0 && 1 <= u <= |rest|
    ensures SizedPiece(rest, room, u, 0) == Last(u + Trailers(rest[u..]))
  {
  }

  /** An empty line right away ends the trailer section after its CR LF. */
  lemma TrailersEnd(more: Bytes)
    ensures Trailers([CR, LF] + more) == 2
  {
    assert [CR, LF] + more == [] + [CR, LF] + more;
    BodyLineOf([], more);
  }

  /** A size line reading 0 ends the body once the trailer section is read. */
  lemma LastOfEncoded(h: Bytes, more: Bytes, room: nat)
    requires CR !in h && LF !in h && Chars(h) != "" && ChunkSize(Chars(h)) == Some(0) && room > 0
    ensures var p := NextPiece(h + [CR, LF] + ([CR, LF] + more), room); p.Last? && p.used == |h| + 4
  {
    var t := [CR, LF] + more;
    var s := h + [CR, LF] + t;
    BodyLineOf(h, t);
    NextPieceUnfold(s, room, Chars(h), |h| + 2, 0);
    SizedPieceZero(s, room, |h| + 2);
    assert s[|h| + 2..] == t;
    TrailersEnd(more);
  }

  /** The last chunk and an empty trailer section end the body after five bytes. */
  lemma LastChunk(more: Bytes, room: nat)
    requires room > 0
    ensures NextPiece(EncodeChunks([]) + more, room).Last? && NextPiece(EncodeChunks([]) + more, room).used == 5
  {
    var h := AsciiBytes(HexDigits(0));
    assert CR !in h && LF !in h && Chars(h) != "" && ChunkSize(Chars(h)) == Some(0) by {
      SizeLineOf(0);
    }
    assert |h| == 1;
    assert EncodeChunks([]) + more == h + [CR, LF] + ([CR, LF] + more);
    LastOfEncoded(h, more, room);
  }

  /** A turn that ends the body ends the read. */
  lemma ReadChunksLast(rest: Bytes, room: nat)
    requires room > 0 && NextPiece(rest, room).Last?
    ensures ReadChunks(rest, room) == Chunked([], NextPiece(rest, room).used, true)
  {
    assert ReadChunks(rest, room) == ChunkTurns(rest, room);
  }

  /** A turn that fails fails the read. */
  lemma ReadChunksBroken(rest: Bytes, room: nat)
    requires room > 0 && NextPiece(rest, room).Broken?
    ensures ReadChunks(rest, room) == ChunkError(NextPiece(rest, room).used)
  {
    assert ReadChunks(rest, room) == ChunkTurns(rest, room);
  }

  /** A turn that reads `d` in `u` bytes is followed by a read of what comes after them, with the room that is left. */
  lemma ReadChunksUnfoldLeft(rest: Bytes, room: nat, left: nat)
    requires room > 0 && NextPiece(rest, room).Piece? && left + |NextPiece(rest, room).data| == room
    ensures var p := NextPiece(rest, room);
      ReadChunks(rest, room) == Then(p.data, p.used, ReadChunks(rest[p.used..], left))
  {
    assert ReadChunks(rest, room) == ChunkTurns(rest, room);
  }

  lemma StepTo(rest: Bytes, room: nat, d: Bytes, u: nat, after: Bytes, left: nat)
    requires room > 0 && NextPiece(rest, room).Piece? && NextPiece(rest, room).data == d && NextPiece(rest, room).used == u
    requires u <= |rest| && rest[u..] == after && left + |d| == room
    ensures ReadChunks(rest, room) == Then(d, u, ReadChunks(after, left))
  {
    ReadChunksUnfoldLeft(rest, room, left);
    SwapData(ReadChunks(rest, room), NextPiece(rest, room).data, d, u, ReadChunks(after, left));
  }

  /** Replacing the data of a turn by an equal sequence, kept apart from any NextPiece term. */
  lemma SwapData(x: Chunked, e: Bytes, d: Bytes, u: nat, later: Chunked)
    requires e == d && x == Then(e, u, later)
    ensures x == Then(d, u, later)
  {
  }

  /**
   * A read over `x`, a chunk that fits in the room encoded with the size line
   * `h` and followed by `more`, takes the chunk and its `u` bytes of
   * encoding, and goes on after them with the room `left`.
   */
  lemma ReadOneEncoded(x: Bytes, h: Bytes, c: Bytes, more: Bytes, room: nat, left: nat, u: nat)
    requires CR !in h && LF !in h && Chars(h) != "" && 0 < |c| && left + |c| == room && |c| < TWO31 && ChunkSize(Chars(h)) == Some(|c|)
    requires x == h + [CR, LF] + (c + [CR, LF] + more) && u == |h| + |c| + 4
    ensures ReadChunks(x, room) == Then(c, u, ReadChunks(more, left))
  {
    assert x[u..] == more;
    PieceOfEncodedChunk(h, c, more, room);
    StepTo(x, room, c, u, more, left);
  }

  /**
   * One chunk that fits in the room is read whole, its encoding is consumed
   * exactly, and the read goes on after it with the room `left` over.
   */
  lemma ReadOneChunk(c: Bytes, more: Bytes, room: nat, left: nat)
    requires 0 < |c| && left + |c| == room && |c| < TWO31
    ensures ReadChunks(EncodeChunk(c) + more, room) == Then(c, |EncodeChunk(c)|, ReadChunks(more, left))
  {
    var h := AsciiBytes(HexDigits(|c|));
    EncodeChunkShape(c, more);
    SizeLineOf(|c|);
    ReadOneEncoded(EncodeChunk(c) + more, h, c, more, room, left, |EncodeChunk(c)|);
  }

  /**
   * Round trip: a chunked body whose data fits in the room is decoded, in one
   * read, to the concatenated chunk data, and exactly its encoding is consumed.
   */
  lemma {:induction false} ChunkedRoundTrip(chunks: seq<Bytes>, more: Bytes, room: nat)
    requires forall k :: 0 <= k < |chunks| ==> 0 < |chunks[k]| < TWO31
    requires |Concat(chunks)| < room
    ensures ReadChunks(EncodeChunks(chunks) + more, room) == Chunked(Concat(chunks), |EncodeChunks(chunks)|, true)
    decreases |chunks|, 1
  {
    if chunks == [] {
      assert |EncodeChunks([])| == 5 by {
        SizeLine(0);
      }
      LastChunk(more, room);
      ReadChunksLast(EncodeChunks([]) + more, room);
    } else {
      var c := chunks[0];
      var tail := chunks[1..];
      var b := EncodeChunks(tail);
      assert Concat(chunks) == c + Concat(tail);
      assert forall k :: 0 <= k < |tail| ==> tail[k] == chunks[k + 1];
      assert EncodeChunks(chunks) + more == EncodeChunk(c) + b + more;
      RoundTripCons(c, tail, more, room, room - |c|);
      EndedAs(EncodeChunk(c) + b + more, EncodeChunks(chunks) + more, room, c + Concat(tail), Concat(chunks), |EncodeChunk(c)| + |b|, |EncodeChunks(chunks)|);
    }
  }

  /** The round trip of a body whose first chunk is `c`, from the round trip of the rest in the room `left` after it. */
  lemma {:induction false} RoundTripCons(c: Bytes, tail: seq<Bytes>, more: Bytes, room: nat, left: nat)
    requires 0 < |c| < TWO31 && forall k :: 0 <= k < |tail| ==> 0 < |tail[k]| < TWO31
    requires left + |c| == room && |Concat(tail)| < left
    ensures ReadChunks(EncodeChunk(c) + EncodeChunks(tail) + more, room)
      == Chunked(c + Concat(tail), |EncodeChunk(c)| + |EncodeChunks(tail)|, true)
    decreases |tail| + 1, 0
  {
    ChunkedRoundTrip(tail, more, left);
    ReadCons(c, EncodeChunks(tail), more, room, left, Concat(tail));
  }

  /** A chunk that fits, followed by an encoding the rest of the room reads to its end: the chunk then that data. */
  lemma ReadCons(c: Bytes, b: Bytes, more: Bytes, room: nat, left: nat, t: Bytes)
    requires 0 < |c| && left + |c| == room && |c| < TWO31
    requires ReadChunks(b + more, left) == Chunked(t, |b|, true)
    ensures ReadChunks(EncodeChunk(c) + b + more, room) == Chunked(c + t, |EncodeChunk(c)| + |b|, true)
  {
    var s := EncodeChunk(c) + b + more;
    assert s == EncodeChunk(c) + (b + more);
    ReadOneChunk(c, b + more, room, left);
    SameRead(s, EncodeChunk(c) + (b + more), room);
    ThenEnded(ReadChunks(s, room), c, t, c + t, |EncodeChunk(c)|, |b|, |EncodeChunk(c)| + |b|, ReadChunks(b + more, left));
  }

  /** The same ended read, restated over equal bytes, data and count. */
  lemma EndedAs(x: Bytes, y: Bytes, room: nat, d: Bytes, e: Bytes, n: nat, m: nat)
    requires x == y && d == e && n == m && ReadChunks(x, room) == Chunked(d, n, true)
    ensures ReadChunks(y, room) == Chunked(e, m, true)
  {
  }

  /** A turn's data followed by a read that ends the body: the whole data, and the body ended. */
  lemma ThenEnded(r: Chunked, c: Bytes, t: Bytes, whole: Bytes, ua: nat, ub: nat, n: nat, later: Chunked)
    requires later == Chunked(t, ub, true) && r == Then(c, ua, later) && whole == c + t && n == ua + ub
    ensures r == Chunked(whole, n, true)
  {
  }

  lemma SameRead(x: Bytes, y: Bytes, room: nat)
    requires x == y
    ensures ReadChunks(x, room) == ReadChunks(y, room)
  {
  }

  /**
   * A chunk larger than the room loses its tail: the read returns the first
   * `room` bytes, and the line read meant for the CR LF after the data
   * swallows the rest of the chunk, since no per-chunk remainder is kept.
   */
  lemma ChunkTailLost(c: Bytes, more: Bytes, room: nat)
    requires 0 < room < |c| < TWO31
    requires CR !in c[room..] && LF !in c[room..]
    ensures ReadChunks(EncodeChunk(c) + more, room) == Chunked(c[..room], |EncodeChunk(c)|, false)
  {
    var s := EncodeChunk(c) + more;
    PieceOfLongChunk(c, more, room);
    assert s[|EncodeChunk(c)|..] == more;
    StepTo(s, room, c[..room], |EncodeChunk(c)|, more, 0);
    assert c[..room] + [] == c[..room];
  }


  /** The one turn over a chunk longer than the room: its first `room` bytes, and the whole encoding consumed. */
  lemma PieceOfLongChunk(c: Bytes, more: Bytes, room: nat)
    requires 0 < room < |c| < TWO31
    requires CR !in c[room..] && LF !in c[room..]
    ensures var p := NextPiece(EncodeChunk(c) + more, room); p.Piece? && p.data == c[..room] && p.used == |EncodeChunk(c)|
  {
    var h := AsciiBytes(HexDigits(|c|));
    SizeLineOf(|c|);
    PieceOfEncoded(h, c, more, room, room);
    BodyLineOf(c[room..], more);
    EncodeChunkShape(c, more);
  }

  // ---------------------------------------------------------------------
  // Chunks longer than the room, as the reader evidently means to read them
  // ---------------------------------------------------------------------

  /**
   * One turn of a chunk reader that remembers how much of the current chunk
   * it has not handed out yet (`left`, 0 between chunks): the outcome, and
   * what is left of the chunk after the turn.
   */
  datatype KeptPiece = KeptLast(used: nat) | KeptBroken(used: nat) | Kept(data: Bytes, used: nat, left: nat)

  /**
   * The data part of such a turn, `u` bytes into `rest`: at most `room` of
   * the `left` bytes still owed, and the line that ends the chunk's data is
   * read only once the chunk is used up.
   */
  function KeptData(rest: Bytes, u: nat, room: nat, left: nat): (p: KeptPiece)
    requires u <= |rest| && 0 < left && 0 < room
    ensures p.used <= |rest|
    ensures p.Kept? ==> 0 < |p.data| <= room && |p.data| + p.left == left
  {
    var k := if left < room then left else room;
    if |rest| - u < k then KeptBroken(|rest|)
    else if k == left then Kept(rest[u..u + k], u + k + BodyLine(rest[u + k..], false).1, 0)
    else Kept(rest[u..u + k], u + k, left - k)
  }

  /** One turn of the corrected loop: the rest of a chunk first, otherwise a size line as in NextPiece. */
  function NextPieceKept(rest: Bytes, room: nat, left: nat): (p: KeptPiece)
    requires 0 < room
    ensures p.used <= |rest|
    ensures p.Kept? ==> |p.data| <= room
  {
    if left > 0 then KeptData(rest, 0, room, left)
    else
      var line := BodyLine(rest, false);
      if line.0 == "" then KeptLast(line.1)
      else
        match ChunkSize(line.0)
        case None => KeptBroken(line.1)
        case Some(size) =>
          if size == 0 then KeptLast(line.1 + Trailers(rest[line.1..]))
          else if size < 0 then Kept([], line.1 + BodyLine(rest[line.1..], false).1, 0)
          else KeptData(rest, line.1, room, size as nat)
  }

  /** A turn as written and a corrected turn between chunks have the same outcome. */
  predicate SameTurn(p: Piece, q: KeptPiece)
  {
    match p
    case Last(u) => q == KeptLast(u)
    case Broken(u) => q == KeptBroken(u)
    case Piece(d, u) => q == Kept(d, u, 0)
  }

  /** Whether the size line at the front of `rest`, if any, announces a chunk that fits the room. */
  predicate FitsRoom(rest: Bytes, room: nat)
  {
    var line := BodyLine(rest, false);
    line.0 == "" || ChunkSize(line.0).None? || ChunkSize(line.0).value as int <= room
  }

  /** Between chunks the corrected turn does what the turn as written does, unless the chunk is longer than the room. */
  lemma KeptAgrees(rest: Bytes, room: nat)
    requires 0 < room && FitsRoom(rest, room)
    ensures SameTurn(NextPiece(rest, room), NextPieceKept(rest, room, 0))
  {
    var line := BodyLine(rest, false);
    if line.0 != "" && ChunkSize(line.0).Some? {
      var size := ChunkSize(line.0).value;
      NextPieceUnfold(rest, room, line.0, line.1, size);
      if size > 0 {
        KeptUnfold(rest, room, line.0, line.1, size);
        SizedPieceUnfold(rest, room, line.1, size);
        FitData(rest, line.1, room, size as nat);
      } else if size < 0 {
        assert SizedPiece(rest, room, line.1, size) == DataPiece(rest, line.1, 0);
        assert rest[line.1..line.1 + 0] == [];
      }
    }
  }

  /** The data part of a turn over a chunk that fits the room is the same in both loops. */
  lemma FitData(rest: Bytes, u: nat, room: nat, size: nat)
    requires 1 <= u <= |rest| && 0 < size <= room
    ensures SameTurn(DataPiece(rest, u, if size < room then size else room), KeptData(rest, u, room, size))
  {
  }

  /** A size line announcing a chunk longer than the room: the turn hands out `room` bytes and stops right after them. */
  lemma KeptFirst(s: Bytes, h: Bytes, c: Bytes, more: Bytes, room: nat)
    requires CR !in h && LF !in h && Chars(h) != "" && 0 < room < |c| < TWO31 && ChunkSize(Chars(h)) == Some(|c|)
    requires s == h + [CR, LF] + (c + [CR, LF] + more)
    ensures NextPieceKept(s, room, 0) == Kept(c[..room], |h| + 2 + room, |c| - room)
  {
    var u := |h| + 2;
    FirstDataAt(s, h, c, more, room, u);
    BodyLineOf(h, c + [CR, LF] + more);
    KeptUnfold(s, room, Chars(h), u, |c|);
    LongData(s, u, c[..room], room, |c|);
  }

  /** Where a chunk's data starts after its size line. */
  lemma FirstDataAt(s: Bytes, h: Bytes, c: Bytes, more: Bytes, room: nat, u: nat)
    requires room < |c| && s == h + [CR, LF] + (c + [CR, LF] + more) && u == |h| + 2
    ensures u + room <= |s| && s[u..u + room] == c[..room]
  {
    assert s[u..] == c + [CR, LF] + more;
  }

  lemma KeptUnfold(rest: Bytes, room: nat, line: string, u: nat, size: int32)
    requires room > 0 && BodyLine(rest, false) == (line, u) && line != "" && ChunkSize(line) == Some(size) && size > 0
    ensures u <= |rest| && NextPieceKept(rest, room, 0) == KeptData(rest, u, room, size as nat)
  {
  }

  /** The data part of a turn over a chunk longer than the room stops right after the room is full. */
  lemma LongData(rest: Bytes, u: nat, d: Bytes, room: nat, left: nat)
    requires 0 < room < left && u + room <= |rest| && d == rest[u..u + room]
    ensures KeptData(rest, u, room, left) == Kept(d, u + room, left - room)
  {
  }

  /** The rest of a chunk, with room for all of it: handed out whole, with the CR LF after it consumed. */
  lemma KeptRest(r: Bytes, d: Bytes, more: Bytes, room: nat)
    requires 0 < |d| <= room && r == d + [CR, LF] + more
    ensures NextPieceKept(r, room, |d|) == Kept(d, |d| + 2, 0)
  {
    assert r[..|d|] == d;
    assert r[|d|..] == [] + [CR, LF] + more;
    BodyLineOf([], more);
  }

  /**
   * The chunk of ChunkTailLost read by the corrected loop: the first turn
   * hands out its first `room` bytes and stops right after them; the next
   * turn, with room for the rest, hands out the rest and consumes the CR LF
   * after it. Together they deliver the whole chunk and consume exactly its
   * encoding.
   */
  lemma LongChunkKept(c: Bytes, more: Bytes, room: nat, room2: nat, used: nat)
    requires 0 < room < |c| < TWO31 && |c| - room <= room2
    requires used + (|c| - room) + 2 == |EncodeChunk(c)|
    ensures used <= |EncodeChunk(c) + more|
    ensures NextPieceKept(EncodeChunk(c) + more, room, 0) == Kept(c[..room], used, |c| - room)
    ensures NextPieceKept((EncodeChunk(c) + more)[used..], room2, |c| - room) == Kept(c[room..], |c| - room + 2, 0)
  {
    var s := EncodeChunk(c) + more;
    var h := AsciiBytes(HexDigits(|c|));
    LongChunkParts(c, more, room, used, s, h);
    SizeLineOf(|c|);
    KeptFirst(s, h, c, more, room);
    KeptRest(s[used..], c[room..], more, room2);
  }

  /** Where the first turn over a long chunk stops, and what is left after it. */
  lemma LongChunkParts(c: Bytes, more: Bytes, room: nat, used: nat, s: Bytes, h: Bytes)
    requires room < |c| && used + (|c| - room) + 2 == |EncodeChunk(c)|
    requires s == EncodeChunk(c) + more && h == AsciiBytes(HexDigits(|c|))
    ensures s == h + [CR, LF] + (c + [CR, LF] + more) && used == |h| + 2 + room
    ensures used <= |s| && s[used..] == c[room..] + [CR, LF] + more
  {
    EncodeChunkShape(c, more);
    ChunkLayout(h, c, more, room);
  }

  /** Disposing a body that fits in one drain read consumes exactly its encoding and reaches its end. */
  lemma DrainEncoded(chunks: seq<Bytes>, more: Bytes)
    requires forall k :: 0 <= k < |chunks| ==> 0 < |chunks[k]| < TWO31
    requires |Concat(chunks)| < DrainSize
    ensures ChunkDrain(EncodeChunks(chunks) + more) == (|EncodeChunks(chunks)|, true)
  {
    ChunkedRoundTrip(chunks, more, DrainSize);
  }

  // ---------------------------------------------------------------------
  // Construction and argument checks
  // ---------------------------------------------------------------------

  /** Chunked mode: Transfer-Encoding is present, non-empty and contains "chunked", ignoring case. */
  predicate IsChunked(transferEncoding: Option<string>)
  {
    transferEncoding.Some? && transferEncoding.value != [] && ContainsIgnoreCase(transferEncoding.value, "chunked")
  }

  /** The Content-Length a body starts with: `long.TryParse` of the header, 0 when absent, unparseable or chunked. */
  function InitialLength(chunked: bool, contentLength: Option<string>): int
  {
    if chunked then 0
    else match ParseLong(contentLength)
      case Some(n) => n
      case None => 0
  }

  /** "chunked" anywhere in the header, in any case, selects chunked mode. */
  lemma ChunkedNamed(before: string, after: string)
    ensures IsChunked(Some(before + "chunked" + after))
  {
    ContainsAt(before, "chunked", after);
  }

  /** A header shorter than "chunked" cannot select it. */
  lemma ShortNotChunked(te: string)
    requires |te| < 7
    ensures !IsChunked(Some(te))
  {
    ContainsLonger(te, "chunked");
  }

  /** Without chunking, any 64-bit Content-Length written in decimal is the body length; an absent one is 0. */
  lemma ContentLengthOf(n: int)
    requires -TWO63 <= n < TWO63
    ensures InitialLength(false, Some(IntText(n))) == n && InitialLength(false, None) == 0
  {
    ParseLongText(n);
  }

  /** The argument check of ReadAsync as written: `offset + count` is a 32-bit sum and can wrap. */
  predicate RangeRejectedAsWritten(offset: int32, count: int32, length: nat)
  {
    offset < 0 || count < 0 || Wrap32(offset + count) > length
  }

  /** The intended argument check: the range must lie inside the buffer. */
  predicate RangeRejected(offset: int32, count: int32, length: nat)
  {
    offset < 0 || count < 0 || offset + count > length
  }

  /** The two checks agree whenever the sum does not overflow. */
  lemma RangeChecksAgree(offset: int32, count: int32, length: nat)
    requires offset + count < TWO31
    ensures RangeRejectedAsWritten(offset, count, length) <==> RangeRejected(offset, count, length)
  {
    if offset >= 0 && count >= 0 {
      Wrap32Id(offset + count);
    }
  }

  /** The sum wraps: a range reaching two gigabytes past a 16-byte buffer passes the check as written. */
  lemma RangeCheckOverflow()
    ensures !RangeRejectedAsWritten(1, TWO31 - 1, 16)
    ensures RangeRejected(1, TWO31 - 1, 16)
  {
    assert Wrap32(TWO31) == -TWO31;
  }

  // ---------------------------------------------------------------------
  // Content-Length reads
  // ---------------------------------------------------------------------

  /**
   * One ReadAsync in Content-Length mode with `remaining` bytes still
   * expected and `rest` on the connection: nothing once the remaining length
   * is zero or less (a negative Content-Length included); otherwise at most
   * `count`, the remaining length and what the peer still has, and nothing
   * only when `count` is 0 or the peer has sent everything.
   */
  predicate ContentRead(remaining: int, count: nat, rest: Bytes, n: nat)
  {
    if remaining <= 0 then n == 0
    else n <= count && n <= remaining && n <= |rest| && (n == 0 <==> count == 0 || rest == [])
  }

  /** A run of Content-Length reads asking `counts` and returning `got`, each on what the ones before left. */
  predicate ContentReads(remaining: int, rest: Bytes, counts: seq<nat>, got: seq<nat>)
    decreases |counts|
  {
    |counts| == |got|
    && (counts != [] ==>
          ContentRead(remaining, counts[0], rest, got[0])
          && ContentReads(remaining - got[0], rest[got[0]..], counts[1..], got[1..]))
  }

  function Sum(s: seq<nat>): nat
  {
    if s == [] then 0 else s[0] + Sum(s[1..])
  }

  /**
   * Whatever sizes the network picks, a run of Content-Length reads never
   * returns more than the Content-Length nor more than the peer sent, and
   * returns nothing at all when the length is zero or negative.
   */
  lemma {:induction false} ContentReadsBound(remaining: int, rest: Bytes, counts: seq<nat>, got: seq<nat>)
    requires ContentReads(remaining, rest, counts, got)
    ensures Sum(got) <= |rest|
    ensures remaining <= 0 ==> Sum(got) == 0
    ensures remaining > 0 ==> Sum(got) <= remaining
    decreases |counts|
  {
    if counts != [] {
      ContentReadsBound(remaining - got[0], rest[got[0]..], counts[1..], got[1..]);
    }
  }

  /**
   * A run whose last read asked for something and got nothing has read the
   * whole body when the peer sent at least the Content-Length.
   */
  lemma {:induction false} ContentReadsComplete(remaining: int, rest: Bytes, counts: seq<nat>, got: seq<nat>)
    requires ContentReads(remaining, rest, counts, got) && counts != []
    requires counts[|counts| - 1] > 0 && got[|got| - 1] == 0
    requires 0 < remaining <= |rest|
    ensures Sum(got) == remaining
    decreases |counts|
  {
    if |counts| == 1 {
      // a single read that asks for bytes the peer has cannot return nothing
      assert false;
    } else {
      var r := remaining - got[0];
      if r <= 0 {
        assert counts[1..][|counts[1..]| - 1] == counts[|counts| - 1];
        assert ContentReads(r, rest[got[0]..], counts[1..], got[1..]);
        ContentReadsBound(r, rest[got[0]..], counts[1..], got[1..]);
      } else {
        assert counts[1..][|counts[1..]| - 1] == counts[|counts| - 1];
        assert got[1..][|got[1..]| - 1] == got[|got| - 1];
        ContentReadsComplete(r, rest[got[0]..], counts[1..], got[1..]);
      }
    }
  }

  /**
   * DrainRemainingContent: what disposing consumes with `remaining` bytes
   * expected and `rest` on the connection.
   */
  function ContentDrain(remaining: int, rest: Bytes): (n: nat)
    ensures n <= |rest| && (remaining <= 0 ==> n == 0)
    ensures remaining > 0 ==> n <= remaining && (n == remaining || n == |rest|)
  {
    if remaining <= 0 then 0 else if remaining < |rest| then remaining else |rest|
  }

  // ---------------------------------------------------------------------
  // The stream
  // ---------------------------------------------------------------------

  /** The outcome of one turn of the chunk loop, as the loop sees it. */
  datatype Turn = Ended | Failed | Got(n: nat)


  /** What a chunked read did: `moved` bytes consumed, the result, whether the body ended, and the data written at `at`. */
  ghost predicate ChunkedRead(c: Chunked, r: Result<nat>, ended: bool, moved: int, was: Bytes, now: Bytes, at: nat)
  {
    moved == c.used
    && match c
       case ChunkError(_) => r == Err(InvalidData) && !ended
       case Chunked(d, _, e) => r == Ok(|d|) && ended == e && at + |d| <= |was| && now == was[..at] + d + was[at + |d|..]
  }

  /**
   * A chunked read part-way: `got` read so far at `at` in the buffer that
   * held `before`, `used` bytes consumed, and the whole read is that data
   * followed by the `later` turns.
   */
  ghost predicate Progress(whole: Chunked, got: Bytes, used: int, before: Bytes, now: Bytes, at: nat, later: Chunked)
  {
    used >= 0 && at + |got| <= |before|
    && now == before[..at] + got + before[at + |got|..]
    && whole == Then(got, used, later)
  }

  lemma StartRead(whole: Chunked, before: Bytes, at: nat)
    requires at <= |before|
    ensures Progress(whole, [], 0, before, before, at, whole)
  {
    if whole.Chunked? {
      assert [] + whole.data == whole.data;
    }
    assert before[..at] + [] + before[at..] == before;
  }

  /** A read of what is left, `x`, with `room` bytes of room; kept apart from `ReadChunks` so that it unfolds only when asked to. */
  ghost function ReadRest(x: Bytes, room: nat): Chunked { ReadChunks(x, room) }

  /**
   * One turn seen from the read it starts, `moved` bytes on: a read of `x`
   * with `room` bytes of room ends or fails with the turn, or is the turn's
   * data `d`, written at `at` in place of what `was` there, followed by a
   * read of what is left, `y`, with the room that is left.
   */
  ghost predicate TurnRead(x: Bytes, room: nat, t: Turn, moved: nat, d: Bytes, was: Bytes, now: Bytes, at: nat, y: Bytes)
  {
    match t
    case Ended => ReadRest(x, room) == Chunked([], moved, true) && now == was
    case Failed => ReadRest(x, room) == ChunkError(moved)
    case Got(n) =>
      0 < moved && |d| == n <= room && at + n <= |was| && now == was[..at] + d + was[at + n..]
      && ReadRest(x, room) == Then(d, moved, ReadRest(y, room - n))
  }

  /** A read that filled its room. */
  lemma FilledRead(whole: Chunked, got: Bytes, used: int, before: Bytes, now: Bytes, at: nat)
    requires Progress(whole, got, used, before, now, at, Chunked([], 0, false))
    ensures ChunkedRead(whole, Ok(|got|), false, used, before, now, at)
  {
    assert got + [] == got;
  }

  /**
   * One turn of a read in progress, whose remaining turns are the read of
   * `x`: a turn that ends or fails ends the whole read the same way; a turn
   * of data `d` leaves the read in progress with `d` behind what was read
   * and the read of `y` still to come.
   */
  lemma TurnAdvances(whole: Chunked, got: Bytes, used: int, before: Bytes, was: Bytes, at: nat, x: Bytes, room: nat,
                     t: Turn, moved: nat, d: Bytes, now: Bytes, turnAt: nat, y: Bytes, after: int)
    requires Progress(whole, got, used, before, was, at, ReadRest(x, room)) && after == used + moved
    requires TurnRead(x, room, t, moved, d, was, now, turnAt, y) && turnAt == at + |got|
    ensures !t.Got? ==> ChunkedRead(whole, if t.Ended? then Ok(|got|) else Err(InvalidData), t.Ended?, after, before, now, at)
    ensures t.Got? ==> Progress(whole, got + d, after, before, now, at, ReadRest(y, room - t.n))
  {
    if t.Ended? {
      EndedRead(whole, got, used, moved, after, before, now, at);
    } else if t.Failed? {
      BrokenRead(whole, got, used, moved, after, before, now, at);
    } else {
      GrowRead(whole, got, used, before, was, at, d, moved, now, ReadRest(y, room - t.n), after);
    }
  }

  /** A read whose next turn ends the body after `u` bytes. */
  lemma EndedRead(whole: Chunked, got: Bytes, used: int, u: nat, after: int, before: Bytes, now: Bytes, at: nat)
    requires Progress(whole, got, used, before, now, at, Chunked([], u, true)) && after == used + u
    ensures ChunkedRead(whole, Ok(|got|), true, after, before, now, at)
  {
    assert got + [] == got;
  }

  /** A read whose next turn fails after `u` bytes. */
  lemma BrokenRead(whole: Chunked, got: Bytes, used: int, u: nat, after: int, before: Bytes, now: Bytes, at: nat)
    requires used >= 0 && whole == Then(got, used, ChunkError(u)) && after == used + u
    ensures ChunkedRead(whole, Err(InvalidData), false, after, before, now, at)
  {
  }

  /** A read whose next turn adds `d` behind what was read, `moved` bytes on. */
  lemma GrowRead(whole: Chunked, got: Bytes, used: int, before: Bytes, was: Bytes, at: nat,
                 d: Bytes, moved: nat, now: Bytes, later: Chunked, after: int)
    requires Progress(whole, got, used, before, was, at, Then(d, moved, later)) && after == used + moved
    requires at + |got| + |d| <= |before| && now == was[..at + |got|] + d + was[at + |got| + |d|..]
    ensures Progress(whole, got + d, after, before, now, at, later)
  {
    ThenThen(got, used, d, moved, later);
    SpliceMore(before, got, d, at, was, now);
  }

  /** Writing `d` behind the `got` already written at `lo` extends what was written. */
  lemma SpliceMore(before: Bytes, got: Bytes, d: Bytes, lo: nat, was: Bytes, now: Bytes)
    requires lo + |got| + |d| <= |before|
    requires was == before[..lo] + got + before[lo + |got|..]
    requires now == was[..lo + |got|] + d + was[lo + |got| + |d|..]
    ensures now == before[..lo] + (got + d) + before[lo + |got| + |d|..]
  {
    assert was[..lo + |got|] == before[..lo] + got;
    assert was[lo + |got| + |d|..] == before[lo + |got| + |d|..];
  }

  /** After a size line of zero, the read ends behind the trailers, `moved` bytes on. */
  lemma ZeroSizeRead(x: Bytes, room: nat, line: string, u: nat, moved: nat)
    requires room > 0 && BodyLine(x, false) == (line, u) && line != "" && ChunkSize(line) == Some(0)
    requires moved == u + Trailers(x[u..])
    ensures ReadRest(x, room) == Chunked([], moved, true)
  {
    NextPieceUnfold(x, room, line, u, 0);
    ReadChunksLast(x, room);
  }

  /** After a size line of non-zero size, a stream that ends inside the data fails the read with all `moved` bytes consumed. */
  lemma ShortDataRead(x: Bytes, room: nat, line: string, u: nat, size: int32, moved: nat)
    requires room > 0 && BodyLine(x, false) == (line, u) && line != "" && ChunkSize(line) == Some(size) && size != 0
    requires |x| < u + ChunkTake(size, room) && moved == |x|
    ensures ReadRest(x, room) == ChunkError(moved)
  {
    NextPieceUnfold(x, room, line, u, size);
    ReadChunksBroken(x, room);
  }

  /**
   * After a size line of non-zero size, the read is the `k` data bytes `d`,
   * then the line after them, `v` bytes in all, followed by a read of what is
   * left, `y`, with `left` bytes of room.
   */
  lemma DataRead(x: Bytes, room: nat, line: string, u: nat, size: int32, k: nat, v: nat, y: Bytes, d: Bytes, left: nat)
    requires room > 0 && BodyLine(x, false) == (line, u) && line != "" && ChunkSize(line) == Some(size) && size != 0
    requires k == ChunkTake(size, room) && u + k <= |x| && v == u + k + BodyLine(x[u + k..], false).1 && y == x[v..]
    requires d == x[u..u + k] && left + k == room
    ensures ReadRest(x, room) == Then(d, v, ReadRest(y, left)) && 1 <= u && |d| == k
  {
    DataLinePiece(x, room, line, u, size, k, v);
    DataPieceRead(x, room, d, v, y, left);
  }

  /**
   * What the data read of a turn did with the bytes `r` ahead of it when it
   * asked for `want` of them: it found fewer and moved to the end of `r`,
   * or copied them to `at` in place of what `was` there, read the line
   * after them and moved `moved` bytes in all.
   */
  ghost predicate DataTaken(r: Bytes, want: nat, k: Option<nat>, moved: nat, was: Bytes, now: Bytes, at: nat)
  {
    if |r| < want then k == None && moved == |r|
    else (k == Some(want) && moved == want + BodyLine(r[want..], false).1 && at + want <= |was|
          && now == was[..at] + r[..want] + was[at + want..])
  }

  /**
   * The turn after a size line of non-zero size, `u` bytes into `x`, from
   * what the data read did with `r`, the bytes after that line, when it
   * asked for `want` of them and moved `m` of them: the turn read of `x`,
   * which moved `moved` bytes in all and left `y` unread.
   */
  lemma DataTurnFrom(x: Bytes, u: nat, line: string, size: int32, room: nat, r: Bytes, want: nat, k: Option<nat>,
                     t: Turn, m: nat, moved: nat, was: Bytes, now: Bytes, at: nat, y: Bytes) returns (d: Bytes)
    requires room > 0 && BodyLine(x, false) == (line, u) && line != "" && ChunkSize(line) == Some(size) && size != 0
    requires u <= |x| && r == x[u..] && at + room <= |was| && want == ChunkTake(size, room)
    requires DataTaken(r, want, k, m, was, now, at)
    requires t == (if k.None? then Failed else Got(k.value))
    requires moved == u + m && y == r[m..]
    ensures TurnRead(x, room, t, moved, d, was, now, at, y)
  {
    if k.None? {
      d := [];
      ShortTurnFrom(x, u, line, size, room, r, want, t, d, m, moved, was, now, at, y);
    } else {
      d := r[..want];
      GotTurnFrom(x, u, line, size, room, r, want, t, d, m, moved, was, now, at, y);
    }
  }

  /**
   * The turn after a size line of non-zero size, `u` bytes into `x`, when
   * the bytes `r` after that line end inside the data: the turn read of `x`
   * fails.
   */
  lemma ShortTurnFrom(x: Bytes, u: nat, line: string, size: int32, room: nat, r: Bytes, want: nat, t: Turn, d: Bytes,
                      m: nat, moved: nat, was: Bytes, now: Bytes, at: nat, y: Bytes)
    requires room > 0 && BodyLine(x, false) == (line, u) && line != "" && ChunkSize(line) == Some(size) && size != 0
    requires u <= |x| && r == x[u..] && want == ChunkTake(size, room)
    requires |r| < want && m == |r| && t == Failed && moved == u + m
    ensures TurnRead(x, room, t, moved, d, was, now, at, y)
  {
    ShortParts(x, u, r, want, m, moved);
    ShortDataTurn(x, room, line, u, size, t, moved, d, was, now, at, y);
  }

  /** Data cut short by the end of `r`, the bytes of `x` after the first `u`, runs to the end of `x`. */
  lemma ShortParts(x: Bytes, u: nat, r: Bytes, want: nat, m: nat, moved: nat)
    requires u <= |x| && r == x[u..] && |r| < want && m == |r| && moved == u + m
    ensures |x| < u + want && moved == |x|
  {
  }

  /**
   * The turn after a size line of non-zero size, `u` bytes into `x`, when
   * the data read took the `want` bytes after that line from `r`, copied
   * them to `at`, read the line after them and moved `m` bytes of `r` in
   * all, leaving `y` unread: the turn read of `x` is those bytes.
   */
  lemma GotTurnFrom(x: Bytes, u: nat, line: string, size: int32, room: nat, r: Bytes, want: nat, t: Turn, d: Bytes,
                    m: nat, moved: nat, was: Bytes, now: Bytes, at: nat, y: Bytes)
    requires room > 0 && BodyLine(x, false) == (line, u) && line != "" && ChunkSize(line) == Some(size) && size != 0
    requires u <= |x| && r == x[u..] && at + room <= |was| && want == ChunkTake(size, room)
    requires !(|r| < want) && m == want + BodyLine(r[want..], false).1 && at + want <= |was|
    requires now == was[..at] + r[..want] + was[at + want..]
    requires t == Got(want) && d == r[..want] && moved == u + m && y == r[m..]
    ensures TurnRead(x, room, t, moved, d, was, now, at, y)
  {
    DataParts(x, u, r, want, m, moved, y, d, was, now, at);
    GotDataTurn(x, room, line, u, size, want, room - want, t, r[want..], moved, d, was, now, at, y);
  }

  /** How the parts of a data read of `r`, the bytes of `x` after the first `u`, map back onto `x`. */
  lemma DataParts(x: Bytes, u: nat, r: Bytes, want: nat, m: nat, moved: nat, y: Bytes, d: Bytes, was: Bytes, now: Bytes, at: nat)
    requires u <= |x| && r == x[u..] && want <= |r| && m == want + BodyLine(r[want..], false).1 && moved == u + m
    requires y == r[m..] && d == r[..want] && at + want <= |was| && now == was[..at] + r[..want] + was[at + want..]
    ensures u + want <= |x| && r[want..] == x[u + want..] && moved == u + want + BodyLine(r[want..], false).1
    ensures y == x[moved..] && d == x[u..u + want] && now == was[..at] + d + was[at + want..]
  {
    assert r[want..] == x[u + want..];
    assert r[m..] == x[u + m..];
  }

    /** The data read of a turn that the end of the stream cut short. */
  lemma ShortDataTurn(x: Bytes, room: nat, line: string, u: nat, size: int32, t: Turn, moved: nat,
                      d: Bytes, was: Bytes, now: Bytes, at: nat, y: Bytes)
    requires room > 0 && BodyLine(x, false) == (line, u) && line != "" && ChunkSize(line) == Some(size) && size != 0
    requires |x| < u + ChunkTake(size, room) && moved == |x| && t == Failed
    ensures TurnRead(x, room, t, moved, d, was, now, at, y)
  {
    ShortDataRead(x, room, line, u, size, moved);
    FailedTurn(x, room, t, moved, d, was, now, at, y);
  }

  /** The data read of a turn that copied all `want` bytes it asked for, with `left` bytes of room after them. */
  lemma GotDataTurn(x: Bytes, room: nat, line: string, u: nat, size: int32, want: nat, left: nat, t: Turn, tail: Bytes,
                    moved: nat, d: Bytes, was: Bytes, now: Bytes, at: nat, y: Bytes)
    requires room > 0 && BodyLine(x, false) == (line, u) && line != "" && ChunkSize(line) == Some(size) && size != 0
    requires want == ChunkTake(size, room) && left + want == room && u + want <= |x| && t == Got(want)
    requires tail == x[u + want..] && moved == u + want + BodyLine(tail, false).1 && y == x[moved..] && at + room <= |was|
    requires d == x[u..u + want] && now == was[..at] + d + was[at + want..]
    ensures TurnRead(x, room, t, moved, d, was, now, at, y)
  {
    DataRead(x, room, line, u, size, want, moved, y, d, left);
    GotTurn(x, room, want, left, t, moved, d, was, now, at, y);
  }

  /** A turn that failed, seen from the read it starts. */
  lemma FailedTurn(x: Bytes, room: nat, t: Turn, moved: nat, d: Bytes, was: Bytes, now: Bytes, at: nat, y: Bytes)
    requires t == Failed && ReadRest(x, room) == ChunkError(moved)
    ensures TurnRead(x, room, t, moved, d, was, now, at, y)
  {
  }

  /** A turn that read the `n` bytes `d`, seen from the read it starts. */
  lemma GotTurn(x: Bytes, room: nat, n: nat, left: nat, t: Turn, moved: nat, d: Bytes, was: Bytes, now: Bytes, at: nat, y: Bytes)
    requires t == Got(n) && 0 < moved && |d| == n <= room && at + room <= |was| && now == was[..at] + d + was[at + n..]
    requires left + n == room && ReadRest(x, room) == Then(d, moved, ReadRest(y, left))
    ensures TurnRead(x, room, t, moved, d, was, now, at, y)
  {
  }

  /** After a size line of non-zero size, the turn is the `k` data bytes and the line after them. */
  lemma DataLinePiece(x: Bytes, room: nat, line: string, u: nat, size: int32, k: nat, v: nat)
    requires room > 0 && BodyLine(x, false) == (line, u) && line != "" && ChunkSize(line) == Some(size) && size != 0
    requires k == ChunkTake(size, room) && u + k <= |x| && v == u + k + BodyLine(x[u + k..], false).1
    ensures NextPiece(x, room) == Piece(x[u..u + k], v) && 1 <= u
  {
    NextPieceUnfold(x, room, line, u, size);
    SizedDataPiece(x, room, u, size, k, v);
  }

  /** A turn of data `d` in `v` bytes starts the read with them, followed by a read of what is left, `y`, with `left` bytes of room. */
  lemma DataPieceRead(x: Bytes, room: nat, d: Bytes, v: nat, y: Bytes, left: nat)
    requires room > 0 && NextPiece(x, room) == Piece(d, v) && y == x[v..] && left + |d| == room
    ensures ReadRest(x, room) == Then(d, v, ReadRest(y, left))
  {
    StepTo(x, room, d, v, y, left);
  }

  /** After a size line of `u` bytes and a non-zero size, the turn is the `k` data bytes and the line after them. */
  lemma SizedDataPiece(x: Bytes, room: nat, u: nat, size: int32, k: nat, v: nat)
    requires room > 0 && 1 <= u <= |x| && size != 0 && k == ChunkTake(size, room) && u + k <= |x|
    requires v == u + k + BodyLine(x[u + k..], false).1
    ensures SizedPiece(x, room, u, size) == Piece(x[u..u + k], v)
  {
    DataPieceUnfold(x, u, k);
  }

  /** An empty size line ends the read. */
  lemma EmptyLineRead(x: Bytes, room: nat, u: nat)
    requires room > 0 && BodyLine(x, false) == ("", u)
    ensures ReadRest(x, room) == Chunked([], u, true)
  {
    EmptyLinePiece(x, room, u);
    ReadChunksLast(x, room);
  }

  /** A size line that does not parse fails the read, after the line. */
  lemma BadSizeRead(x: Bytes, room: nat, line: string, u: nat)
    requires room > 0 && BodyLine(x, false) == (line, u) && line != "" && ChunkSize(line).None?
    ensures ReadRest(x, room) == ChunkError(u)
  {
    BadSizePiece(x, room, line, u);
    ReadChunksBroken(x, room);
  }

  /** An empty size line ends the body. */
  lemma EmptyLinePiece(rest: Bytes, room: nat, u: nat)
    requires room > 0 && BodyLine(rest, false) == ("", u)
    ensures NextPiece(rest, room) == Last(u)
  {
  }

  /** A size line that does not parse is an error, after the line. */
  lemma BadSizePiece(rest: Bytes, room: nat, line: string, u: nat)
    requires room > 0 && BodyLine(rest, false) == (line, u) && line != "" && ChunkSize(line).None?
    ensures NextPiece(rest, room) == Broken(u)
  {
  }

  /** Where the line reader stands after one more byte of `rest`. */
  lemma LineStep(rest: Bytes, pending: bool, line: string, u: nat, whole: (string, nat))
    requires rest != [] && whole == Shift(line, u, BodyLine(rest, pending))
    ensures rest[0] == LF ==> whole == (line, u + 1)
    ensures rest[0] == CR ==> whole == Shift(line, u + 1, BodyLine(rest[1..], true))
    ensures rest[0] != CR && rest[0] != LF ==>
      whole == Shift(line + (if pending then "\r" else "") + [rest[0] as char], u + 1, BodyLine(rest[1..], false))
  {
    BodyLineStep(rest, pending);
    if rest[0] == LF {
      assert line + "" == line;
    } else if rest[0] == CR {
      ShiftShift(line, u, "", 1, BodyLine(rest[1..], true));
      assert line + "" == line;
    } else {
      var piece := (if pending then "\r" else "") + [rest[0] as char];
      ShiftShift(line, u, piece, 1, BodyLine(rest[1..], false));
      assert line + (if pending then "\r" else "") + [rest[0] as char] == line + piece;
    }
  }

  /** At the end of the stream the line read so far is the line. */
  lemma LineAtEnd(line: string, u: nat, pending: bool, whole: (string, nat))
    requires whole == Shift(line, u, BodyLine([], pending))
    ensures whole == (line, u)
  {
    assert line + "" == line;
  }

  /** A read of `n` more bytes of `rest` behind the `j` already copied at `lo` extends the copy. */
  lemma CopyMore(before: Bytes, rest: Bytes, lo: nat, j: nat, n: nat, was: Bytes, now: Bytes)
    requires lo + j + n <= |before| && j + n <= |rest|
    requires was == before[..lo] + rest[..j] + before[lo + j..]
    requires now == was[..lo + j] + rest[j..j + n] + was[lo + j + n..]
    ensures now == before[..lo] + rest[..j + n] + before[lo + j + n..]
  {
    assert was[..lo + j] == before[..lo] + rest[..j];
    assert was[lo + j + n..] == before[lo + j + n..];
    assert rest[..j + n] == rest[..j] + rest[j..j + n];
  }
}
