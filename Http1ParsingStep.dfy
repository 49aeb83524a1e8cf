/**
 * Http1ParsingStep (WRM.HTTP.HTTP1): on a connection classified as HTTP/1
 * it serves requests one after another while the connection is kept
 * alive. Each request head is read line by line, its body drained, the
 * request stored under "HTTP_CONTEXT" for the next step, and the response
 * that step leaves written back with the headers the step adds; failures
 * answer with a small HTML error page and end the connection.
 */
module Http1ParsingStep {
  import opened Common
  import opened Strings
  import opened Channel
  import opened LineReader
  import opened Decimal
  import opened Http1Syntax
  import opened Http1Head
  import opened HttpRequestBody
  import opened HttpRequestBodyStream
  import opened HttpMessage
  import opened NetworkContext

  // ---------------------------------------------------------------------
  // Reading a request head (ReadRequestAsync)
  // ---------------------------------------------------------------------

  /**
   * What ReadRequestAsync makes of the bytes: no request (the stream ended
   * first, or the request line is blank), an InvalidDataException (a
   * request line of fewer than three parts, or a head over the size
   * limit), a head the stream ends inside of (the reader then returns null
   * for ever and the request's timeout fires), or the request line, the
   * headers in order and the bytes the head took.
   */
  datatype HeadRead =
    | Closed
    | Malformed
    | Stalled
    | Head(line: RequestLine, headers: seq<Header>, used: nat)

  /** The request line at position `p` of the input and the header section after it. */
  function RequestHead(input: Bytes, p: nat): HeadRead
    requires p <= |input|
  {
    match LineAt(input, p)
    case None => Closed
    case Some(l) =>
      var text := AsciiText(l.kept);
      AfterRequestLine(text, l.used, HeaderAt(input, p + l.used, |text| + 2, false))
  }

  /**
   * The request once its line, `text` in `u` bytes, has been read, and
   * `section` is what the header loop makes of what follows; the size
   * check counts the request line and its CR LF.
   */
  function AfterRequestLine(text: string, u: nat, section: HeaderRead): HeadRead
  {
    if IsNullOrWhiteSpace(Some(text)) then Closed
    else
      match ParseRequestLine(text)
      case None => Malformed
      case Some(line) => HeadOf(line, u, section)
  }

  /** The request once its line, `u` bytes, parsed and the header loop came back with `section`. */
  function HeadOf(line: RequestLine, u: nat, section: HeaderRead): HeadRead
  {
    match section
    case Headers(hs, v) => Head(line, hs, u + v)
    case Unended => Stalled
    case _ => Malformed
  }

  /** The bytes a head took: the request line's, and the header section's within what follows it. */
  lemma RequestHeadUsed(input: Bytes, p: nat)
    requires p <= |input|
    ensures RequestHead(input, p).Head? ==> 1 <= RequestHead(input, p).used <= |input| - p
  {
    match LineAt(input, p)
    case None =>
    case Some(l) =>
      HeaderAtUsed(input, p + l.used, |AsciiText(l.kept)| + 2, false);
  }

  /** The request line, and what it tells of the request. */
  method ReadRequestLine(stream: Channel) returns (line: Option<string>)
    requires stream.Valid()
    modifies stream`pos
    ensures stream.Valid() && old(stream.pos) <= stream.pos
    ensures line.None? ==> RequestHead(stream.input, old(stream.pos)) == Closed
    ensures line.Some? ==>
              RequestHead(stream.input, old(stream.pos)) ==
                AfterRequestLine(line.value, stream.pos - old(stream.pos), HeaderAt(stream.input, stream.pos, |line.value| + 2, false))
  {
    ghost var at := stream.pos;
    line := ReadLineAt(stream);
    RequestHeadRead(stream.input, at, stream.pos, line);
  }

  /** The request where ReadLineAsync, called at `at`, returned `line` and left the stream at `pos`. */
  lemma RequestHeadRead(input: Bytes, at: nat, pos: nat, line: Option<string>)
    requires at <= |input|
    requires match LineAt(input, at)
               case None => line == None && pos == |input|
               case Some(l) => line == Some(AsciiText(l.kept)) && pos == at + l.used
    ensures line.None? ==> RequestHead(input, at) == Closed
    ensures line.Some? ==> pos <= |input|
    ensures line.Some? ==> RequestHead(input, at) == AfterRequestLine(line.value, pos - at, HeaderAt(input, pos, |line.value| + 2, false))
  {
  }

  /**
   * ReadRequestAsync: the request line from a fresh line reader, then the
   * header loop, whose size starts at the request line's length plus two.
   */
  method ReadRequestAsync(stream: Channel) returns (h: HeadRead)
    requires stream.Valid()
    modifies stream`pos
    ensures stream.Valid() && old(stream.pos) <= stream.pos
    ensures h == RequestHead(stream.input, old(stream.pos))
    ensures h.Head? ==> stream.pos == old(stream.pos) + h.used
  {
    var start := stream.pos;
    var requestLine := ReadRequestLine(stream);
    if IsNullOrWhiteSpace(requestLine) {
      return Closed;
    }
    var lineUsed := stream.pos - start;
    var text := requestLine.value;
    var parsed := ParseRequestLine(text);
    if parsed.None? {
      return Malformed;
    }
    var section := ReadHeaderSection(stream, |text| + 2, false);
    h := HeadOf(parsed.value, lineUsed, section);
  }

  /**
   * A request head as a client writes it is read back as written: a
   * request line whose method and path hold no space, well-formed headers,
   * and a head within the size limit.
   */
  lemma RequestHeadRoundTrip(line: RequestLine, hs: seq<Header>, rest: Bytes)
    requires ' ' !in line.verb && ' ' !in line.path && line.verb != ""
    requires Printable(RequestLineText(line))
    requires forall i :: 0 <= i < |hs| ==> WellFormed(hs[i])
    requires |RequestLineText(line)| + 2 + SectionSize(hs) <= MaxHeaderSize
    ensures var text := RequestLineText(line);
            RequestHead(AsciiBytes(HeadText(text, hs)) + rest, 0) == Head(line, hs, |text| + 2 + SectionSize(hs))
  {
    var text := RequestLineText(line);
    var x := HeadBytes(text, hs, rest);
    var l := HeadLines(x, text, hs, rest);
    RequestLineRead(line);
    RequestHeadKnown(x, l, text, line, hs, SectionSize(hs));
  }

  /** A written head is its request line, read at the start, and its header section, read back after it. */
  lemma HeadLines(x: Bytes, text: string, hs: seq<Header>, rest: Bytes) returns (l: Line)
    requires x == AsciiBytes(text + "\r\n") + (AsciiBytes(HeaderLines(hs) + "\r\n") + rest)
    requires Plain(text) && forall i :: 0 <= i < |hs| ==> WellFormed(hs[i])
    requires |text| + 2 + SectionSize(hs) <= MaxHeaderSize
    ensures LineAt(x, 0) == Some(l) && AsciiText(l.kept) == text && l.used == |text| + 2 <= |x|
    ensures HeaderAt(x, l.used, |text| + 2, false) == Headers(hs, SectionSize(hs))
  {
    var first := AsciiBytes(text + "\r\n");
    var more := AsciiBytes(HeaderLines(hs) + "\r\n") + rest;
    assert [] + first == first;
    l := LineReadAt([], text, more);
    ConcatAssoc(first, AsciiBytes(HeaderLines(hs) + "\r\n"), rest);
    SectionRoundTrip(first, hs, rest, |text| + 2, false);
  }

  /** The request whose line, read at the start, parses and whose header loop comes back with headers. */
  lemma RequestHeadKnown(x: Bytes, l: Line, text: string, line: RequestLine, hs: seq<Header>, n: nat)
    requires LineAt(x, 0) == Some(l) && AsciiText(l.kept) == text
    requires text != [] && !IsWhiteSpace(text[0]) && ParseRequestLine(text) == Some(line)
    requires l.used <= |x| && HeaderAt(x, l.used, |text| + 2, false) == Headers(hs, n)
    ensures RequestHead(x, 0) == Head(line, hs, l.used + n)
  {
    RequestHeadLine(x, 0, l);
    RequestLineTaken(text, l.used, Headers(hs, n), line);
  }

  /** The request at a position where a line is read. */
  lemma RequestHeadLine(input: Bytes, p: nat, l: Line)
    requires p <= |input| && LineAt(input, p) == Some(l)
    ensures p + l.used <= |input|
    ensures RequestHead(input, p) == AfterRequestLine(AsciiText(l.kept), l.used, HeaderAt(input, p + l.used, |AsciiText(l.kept)| + 2, false))
  {
  }

  /** A request line that is not blank and parses gives the request the header loop finishes. */
  lemma RequestLineTaken(text: string, u: nat, section: HeaderRead, line: RequestLine)
    requires text != [] && !IsWhiteSpace(text[0]) && ParseRequestLine(text) == Some(line)
    ensures AfterRequestLine(text, u, section) == HeadOf(line, u, section)
  {
  }

  /** The bytes of a head: the first line's, then the section's. */
  lemma HeadBytes(text: string, hs: seq<Header>, rest: Bytes) returns (x: Bytes)
    ensures x == AsciiBytes(HeadText(text, hs)) + rest
    ensures x == AsciiBytes(text + "\r\n") + (AsciiBytes(HeaderLines(hs) + "\r\n") + rest)
    ensures |AsciiBytes(text + "\r\n")| == |text| + 2
  {
    assert HeadText(text, hs) == (text + "\r\n") + (HeaderLines(hs) + "\r\n");
    AsciiConcat(text + "\r\n", HeaderLines(hs) + "\r\n");
    x := AsciiBytes(HeadText(text, hs)) + rest;
  }

  /** A request line that is not blank and has fewer than two spaces is refused, whatever follows it. */
  lemma MalformedRequest(text: string, rest: Bytes)
    requires Plain(text) && !AllWhite(text)
    requires forall i, j :: 0 <= i < j < |text| ==> !(text[i] == ' ' && text[j] == ' ')
    ensures RequestHead(AsciiBytes(text + "\r\n") + rest, 0) == Malformed
  {
    assert AsciiBytes(text + "\r\n") + rest == [] + AsciiBytes(text + "\r\n") + rest;
    var l := LineReadAt([], text, rest);
    MalformedRequestLine(text);
  }

  // ---------------------------------------------------------------------
  // Writing a response (WriteResponseAsync)
  // ---------------------------------------------------------------------

  /** HttpResponse: the status code and description, the handler's headers in order, and the body. */
  datatype Response = Response(status: int, description: string, headers: seq<Header>, body: Body)

  /** `new HttpResponse()`: the response a request starts with. */
  const Initial: Response := Response(200, "OK", [], NoBody)

  /** The response put in place of one the handler set to null. */
  const Missing: Response := Response(500, "Internal Server Error", [], NoBody)

  /** Whether the response leaves the connection open: a body of unknown length without a Content-Length closes it. */
  predicate KeepsAlive(r: Response, keepAlive: bool)
  {
    keepAlive && (HasHeader(r.headers, "Content-Length") || !r.body.Unseekable?)
  }

  /**
   * The headers WriteResponseAsync adds after the handler's: a
   * Content-Length (the body's length, or 0 without a body, none for a body
   * that cannot seek), Connection and Keep-Alive, Date and Server, each only
   * when the handler did not set a header of that name.
   */
  function AddedHeaders(r: Response, keepAlive: bool, date: string): seq<Header>
  {
    LengthHeader(r) + ConnectionHeaders(r, keepAlive) + DateHeader(r, date) + ServerHeader(r)
  }

  function LengthHeader(r: Response): seq<Header>
  {
    if HasHeader(r.headers, "Content-Length") then []
    else match r.body
      case NoBody => [("Content-Length", "0")]
      case Seekable(d) => [("Content-Length", IntText(|d|))]
      case Unseekable(_) => []
  }

  function ConnectionHeaders(r: Response, keepAlive: bool): seq<Header>
  {
    if HasHeader(r.headers, "Connection") then []
    else if KeepsAlive(r, keepAlive) then [("Connection", "keep-alive"), ("Keep-Alive", "timeout=" + IntText(KeepAliveTimeout) + ", max=100")]
    else [("Connection", "close")]
  }

  function DateHeader(r: Response, date: string): seq<Header>
  {
    if HasHeader(r.headers, "Date") then [] else [("Date", date)]
  }

  function ServerHeader(r: Response): seq<Header>
  {
    if HasHeader(r.headers, "Server") then [] else [("Server", "WRM/1.0")]
  }

  /** DefaultKeepAliveTimeout, in seconds. */
  const KeepAliveTimeout: nat := 5

  function ResponseHeaders(r: Response, keepAlive: bool, date: string): seq<Header>
  {
    r.headers + AddedHeaders(r, keepAlive, date)
  }

  /** `{Version} {StatusCode} {StatusDescription}`. */
  function StatusLine(version: string, r: Response): string
  {
    version + " " + IntText(r.status) + " " + r.description
  }

  function ResponseHead(version: string, r: Response, keepAlive: bool, date: string): string
  {
    HeadText(StatusLine(version, r), ResponseHeaders(r, keepAlive, date))
  }

  /**
   * Every response head carries each of Content-Length (unless the body
   * cannot seek), Connection, Date and Server, and a header the handler set
   * wins over the one the step would add.
   */
  lemma ResponseHeaderValues(r: Response, keepAlive: bool, date: string)
    ensures var hs := ResponseHeaders(r, keepAlive, date);
            && GetHeader(hs, "Content-Length") ==
                 (if HasHeader(r.headers, "Content-Length") then GetHeader(r.headers, "Content-Length")
                  else match r.body
                    case NoBody => Some("0")
                    case Seekable(d) => Some(IntText(|d|))
                    case Unseekable(_) => None)
            && GetHeader(hs, "Connection") ==
                 (if HasHeader(r.headers, "Connection") then GetHeader(r.headers, "Connection")
                  else Some(if KeepsAlive(r, keepAlive) then "keep-alive" else "close"))
            && GetHeader(hs, "Date") == (if HasHeader(r.headers, "Date") then GetHeader(r.headers, "Date") else Some(date))
            && GetHeader(hs, "Server") == (if HasHeader(r.headers, "Server") then GetHeader(r.headers, "Server") else Some("WRM/1.0"))
  {
    var added := AddedHeaders(r, keepAlive, date);
    LengthValues(r);
    ConnectionValues(r, keepAlive);
    DateValues(r, date);
    ServerValues(r);
    AddedValue(r, keepAlive, date, "Content-Length");
    AddedValue(r, keepAlive, date, "Connection");
    AddedValue(r, keepAlive, date, "Date");
    AddedValue(r, keepAlive, date, "Server");
    GetHeaderAppend(r.headers, added, "Content-Length");
    GetHeaderAppend(r.headers, added, "Connection");
    GetHeaderAppend(r.headers, added, "Date");
    GetHeaderAppend(r.headers, added, "Server");
  }

  /** What the added headers give for `name`: the first of the four parts that has it. */
  lemma AddedValue(r: Response, keepAlive: bool, date: string, name: string)
    ensures GetHeader(AddedHeaders(r, keepAlive, date), name) ==
              var a := GetHeader(LengthHeader(r), name);
              var b := GetHeader(ConnectionHeaders(r, keepAlive), name);
              var c := GetHeader(DateHeader(r, date), name);
              if a.Some? then a else if b.Some? then b else if c.Some? then c else GetHeader(ServerHeader(r), name)
  {
    var l, k, d, s := LengthHeader(r), ConnectionHeaders(r, keepAlive), DateHeader(r, date), ServerHeader(r);
    assert AddedHeaders(r, keepAlive, date) == l + (k + (d + s));
    GetHeaderAppend(l, k + (d + s), name);
    GetHeaderAppend(k, d + s, name);
    GetHeaderAppend(d, s, name);
  }

  lemma LengthValues(r: Response)
    ensures GetHeader(LengthHeader(r), "Content-Length") ==
              if HasHeader(r.headers, "Content-Length") then None
              else match r.body
                case NoBody => Some("0")
                case Seekable(d) => Some(IntText(|d|))
                case Unseekable(_) => None
    ensures GetHeader(LengthHeader(r), "Connection").None? && GetHeader(LengthHeader(r), "Date").None?
    ensures GetHeader(LengthHeader(r), "Server").None?
  {
    NamesDiffer();
    if LengthHeader(r) != [] {
      var h := LengthHeader(r)[0];
      assert LengthHeader(r) == [h] && h.0 == "Content-Length";
      GetHeaderSingle(h, "Content-Length");
      GetHeaderSingle(h, "Connection");
      GetHeaderSingle(h, "Date");
      GetHeaderSingle(h, "Server");
    }
  }

  lemma ConnectionValues(r: Response, keepAlive: bool)
    ensures GetHeader(ConnectionHeaders(r, keepAlive), "Connection") ==
              if HasHeader(r.headers, "Connection") then None
              else Some(if KeepsAlive(r, keepAlive) then "keep-alive" else "close")
    ensures GetHeader(ConnectionHeaders(r, keepAlive), "Content-Length").None?
    ensures GetHeader(ConnectionHeaders(r, keepAlive), "Date").None?
    ensures GetHeader(ConnectionHeaders(r, keepAlive), "Server").None?
  {
    NamesDiffer();
    var hs := ConnectionHeaders(r, keepAlive);
    if hs != [] {
      var c := hs[0];
      assert c.0 == "Connection";
      GetHeaderSingle(c, "Content-Length");
      GetHeaderSingle(c, "Connection");
      GetHeaderSingle(c, "Date");
      GetHeaderSingle(c, "Server");
      if |hs| == 2 {
        var k := hs[1];
        assert hs == [c] + [k] && k.0 == "Keep-Alive";
        GetHeaderSingle(k, "Content-Length");
        GetHeaderSingle(k, "Date");
        GetHeaderSingle(k, "Server");
        GetHeaderAppend([c], [k], "Content-Length");
        GetHeaderAppend([c], [k], "Connection");
        GetHeaderAppend([c], [k], "Date");
        GetHeaderAppend([c], [k], "Server");
      } else {
        assert hs == [c];
      }
    }
  }

  lemma DateValues(r: Response, date: string)
    ensures GetHeader(DateHeader(r, date), "Date") == if HasHeader(r.headers, "Date") then None else Some(date)
    ensures GetHeader(DateHeader(r, date), "Content-Length").None? && GetHeader(DateHeader(r, date), "Connection").None?
    ensures GetHeader(DateHeader(r, date), "Server").None?
  {
    NamesDiffer();
    if DateHeader(r, date) != [] {
      var h := DateHeader(r, date)[0];
      assert DateHeader(r, date) == [h] && h.0 == "Date";
      GetHeaderSingle(h, "Content-Length");
      GetHeaderSingle(h, "Connection");
      GetHeaderSingle(h, "Date");
      GetHeaderSingle(h, "Server");
    }
  }

  lemma ServerValues(r: Response)
    ensures GetHeader(ServerHeader(r), "Server") == if HasHeader(r.headers, "Server") then None else Some("WRM/1.0")
    ensures GetHeader(ServerHeader(r), "Content-Length").None? && GetHeader(ServerHeader(r), "Connection").None?
    ensures GetHeader(ServerHeader(r), "Date").None?
  {
    NamesDiffer();
    if ServerHeader(r) != [] {
      var h := ServerHeader(r)[0];
      assert ServerHeader(r) == [h] && h.0 == "Server";
      GetHeaderSingle(h, "Content-Length");
      GetHeaderSingle(h, "Connection");
      GetHeaderSingle(h, "Date");
      GetHeaderSingle(h, "Server");
    }
  }

  /** WriteResponseAsync's own header loop: the handler's headers written in order, and which names it set. */
  method WriteHandlerHeaders(hs: seq<Header>) returns (text: string, hasLength: bool, hasConnection: bool, hasDate: bool, hasServer: bool)
    ensures text == HeaderLines(hs)
    ensures hasLength == HasHeader(hs, "Content-Length") && hasConnection == HasHeader(hs, "Connection")
    ensures hasDate == HasHeader(hs, "Date") && hasServer == HasHeader(hs, "Server")
  {
    text := "";
    hasLength, hasConnection, hasDate, hasServer := false, false, false, false;
    var i := 0;
    while i < |hs|
      invariant 0 <= i <= |hs| && text == HeaderLines(hs[..i])
      invariant hasLength == HasHeader(hs[..i], "Content-Length") && hasConnection == HasHeader(hs[..i], "Connection")
      invariant hasDate == HasHeader(hs[..i], "Date") && hasServer == HasHeader(hs[..i], "Server")
    {
      var h := hs[i];
      assert hs[..i + 1] == hs[..i] + [h];
      SeenHeader(hs[..i], h);
      if EqualsIgnoreCase(h.0, "Content-Length") {
        hasLength := true;
      }
      if EqualsIgnoreCase(h.0, "Connection") {
        hasConnection := true;
      }
      if EqualsIgnoreCase(h.0, "Date") {
        hasDate := true;
      }
      if EqualsIgnoreCase(h.0, "Server") {
        hasServer := true;
      }
      HeaderLinesSnoc(hs[..i], h);
      text := text + HeaderText(h) + "\r\n";
      i := i + 1;
    }
    assert hs[..i] == hs;
  }

  /**
   * WriteResponseAsync as written: the head in ASCII, then the body when it
   * is not empty. For a body that cannot seek, `Body.Length` throws
   * NotSupportedException after the head was written: the result is false
   * and the body is not written.
   */
  method WriteResponseAsync(stream: Channel, version: string, r: Response, keepAlive: bool, date: string) returns (ok: bool)
    requires stream.Valid()
    modifies stream`output
    ensures ok <==> !r.body.Unseekable?
    ensures stream.output == old(stream.output) + AsciiBytes(ResponseHead(version, r, keepAlive, date))
                             + (if r.body.Seekable? then r.body.data else [])
  {
    var head := WriteHead(version, r, keepAlive, date);
    stream.Write(AsciiBytes(head));
    match r.body {
      case NoBody =>
        ok := true;
      case Seekable(data) =>
        if |data| > 0 {
          stream.Write(data);
        }
        ok := true;
      case Unseekable(_) =>
        ok := false;
    }
  }

  /**
   * The head WriteResponseAsync puts together: the status line, the
   * handler's headers, then the headers it adds and the empty line.
   */
  method WriteHead(version: string, r: Response, keepAlive: bool, date: string) returns (head: string)
    ensures head == ResponseHead(version, r, keepAlive, date)
  {
    var lines, hasLength, hasConnection, hasDate, hasServer := WriteHandlerHeaders(r.headers);
    var keep := keepAlive;
    var length: seq<Header> := [];
    if !hasLength && !r.body.NoBody? {
      if r.body.Seekable? {
        length := [("Content-Length", IntText(|r.body.data|))];
      } else {
        keep := false;
      }
    } else if !hasLength {
      length := [("Content-Length", "0")];
    }
    assert length == LengthHeader(r) && keep == KeepsAlive(r, keepAlive);
    var connection: seq<Header> := [];
    if !hasConnection {
      connection := [("Connection", if keep then "keep-alive" else "close")];
    }
    if keep && !hasConnection {
      connection := connection + [("Keep-Alive", "timeout=" + IntText(KeepAliveTimeout) + ", max=100")];
    }
    assert connection == ConnectionHeaders(r, keepAlive);
    var dated: seq<Header> := [];
    if !hasDate {
      dated := [("Date", date)];
    }
    var server: seq<Header> := [];
    if !hasServer {
      server := [("Server", "WRM/1.0")];
    }
    head := Assemble(StatusLine(version, r), r.headers, lines, length + connection + dated + server);
  }

  // ---------------------------------------------------------------------
  // Draining a request body (ConsumeRequestBodyAsync)
  // ---------------------------------------------------------------------

  /**
   * The bytes a drain with 8192-byte reads takes from `rest`, and whether
   * one of its reads throws: the chunked drain, or what is left of the
   * Content-Length as far as the input goes, whose reads never throw.
   */
  function BodyDrain(chunked: bool, remaining: int, rest: Bytes): (r: (nat, bool))
    ensures r.0 <= |rest|
    ensures !chunked ==> !r.1 && (remaining <= 0 ==> r.0 == 0)
  {
    if chunked then (ChunkDrain(rest).0, DrainFails(rest)) else (ContentDrain(remaining, rest), false)
  }

  /** What a drain of the body from its present state takes; nothing once its chunks have ended. */
  ghost function Undrained(body: HttpRequestBodyStream): (nat, bool)
    reads body, body.base
    requires body.base.Valid()
  {
    if body.chunked && body.endOfChunks then (0, false) else BodyDrain(body.chunked, body.remaining, body.base.Remaining())
  }

  /** One `ReadAsync(buffer, 0, 8192)` of the drain, seen from the drain. */
  method ConsumeRead(body: HttpRequestBodyStream, buffer: array<byte>) returns (r: Result<nat>)
    requires body.Valid() && !body.disposed && buffer.Length == DrainSize
    modifies body`remaining, body`consumed, body`endOfChunks, body.base`pos, buffer
    ensures body.Valid() && old(body.base.pos) <= body.base.pos
    ensures r.Err? || r.value == 0 ==> old(Undrained(body)) == (body.base.pos - old(body.base.pos), r.Err?)
    ensures r.Ok? && r.value > 0 ==>
              old(body.base.pos) < body.base.pos
              && old(Undrained(body)) == (body.base.pos - old(body.base.pos) + Undrained(body).0, Undrained(body).1)
  {
    ghost var x := body.base.Remaining();
    ghost var was := buffer[..];
    ghost var ended := body.endOfChunks;
    r := body.ReadAsync(buffer, 0, 8192);
    DropDrop(body.base.input, old(body.base.pos), body.base.pos - old(body.base.pos));
    if body.chunked && !ended {
      DrainTurn(x, ReadChunks(x, DrainSize), r, body.endOfChunks, body.base.pos - old(body.base.pos), was, buffer[..]);
      DrainTurnFails(x, ReadChunks(x, DrainSize), r, body.endOfChunks, body.base.pos - old(body.base.pos), was, buffer[..]);
    }
  }

  /**
   * ConsumeRequestBodyAsync: nothing on a body that cannot be read (a
   * disposed one); otherwise 8192-byte reads until one returns nothing.
   * The result says whether a read threw, which the loop takes as the end
   * of keep-alive.
   */
  method ConsumeRequestBody(body: HttpRequestBodyStream) returns (failed: bool)
    requires body.Valid()
    modifies body`remaining, body`consumed, body`endOfChunks, body.base`pos
    ensures body.Valid()
    ensures old(body.disposed) ==> !failed && body.base.pos == old(body.base.pos)
    ensures !old(body.disposed) ==> body.base.pos == old(body.base.pos) + old(Undrained(body)).0 && failed == old(Undrained(body)).1
  {
    if body.disposed {
      return false;
    }
    var buffer := new byte[DrainSize];
    ghost var start := body.base.pos;
    ghost var whole := Undrained(body);
    while true
      invariant body.Valid() && !body.disposed && start <= body.base.pos
      invariant whole == (body.base.pos - start + Undrained(body).0, Undrained(body).1)
      decreases |body.base.input| - body.base.pos
    {
      var r := ConsumeRead(body, buffer);
      if r.Err? || r.value == 0 {
        return r.Err?;
      }
    }
  }

  /** The chunked drain of an encoded body takes all of it and ends without failing. */
  lemma EncodedBodyDrained(chunks: seq<Bytes>, rest: Bytes)
    requires forall k :: 0 <= k < |chunks| ==> 0 < |chunks[k]| < TWO31
    requires |Concat(chunks)| < DrainSize
    ensures BodyDrain(true, 0, EncodeChunks(chunks) + rest) == (|EncodeChunks(chunks)|, false)
  {
    var x := EncodeChunks(chunks) + rest;
    DrainEncoded(chunks, rest);
    ChunkedRoundTrip(chunks, rest, DrainSize);
    assert !FailsAfter(x, Chunked(Concat(chunks), |EncodeChunks(chunks)|, true));
  }

  // ---------------------------------------------------------------------
  // Error pages (SendErrorResponse)
  // ---------------------------------------------------------------------

  function ErrorPage(code: int, description: string): string
  {
    "<html><body><h1>" + IntText(code) + " " + description + "</h1></body></html>"
  }

  function ErrorHeaders(length: nat, date: string): seq<Header>
  {
    [("Content-Type", "text/html; charset=utf-8"), ("Content-Length", IntText(length)), ("Connection", "close"),
     ("Date", date), ("Server", "WRM/1.0")]
  }

  /** The bytes SendErrorResponse writes: an HTTP/1.1 head, then the page in UTF-8. */
  function ErrorResponse(code: int, description: string, date: string): Bytes
  {
    var page := Octets(ErrorPage(code, description));
    AsciiBytes(HeadText("HTTP/1.1 " + IntText(code) + " " + description, ErrorHeaders(|page|, date))) + page
  }

  /** SendErrorResponse: the head and the page, each written once; failures are swallowed. */
  method SendErrorResponse(stream: Channel, code: int, description: string, date: string)
    requires stream.Valid()
    modifies stream`output
    ensures stream.output == old(stream.output) + ErrorResponse(code, description, date)
  {
    var body := Octets(ErrorPage(code, description));
    var head := HeadText("HTTP/1.1 " + IntText(code) + " " + description, ErrorHeaders(|body|, date));
    stream.Write(AsciiBytes(head));
    stream.Write(body);
  }

  /**
   * An error response frames itself: its Content-Length is the number of
   * bytes after the head, and it announces that the connection closes.
   */
  lemma ErrorResponseFramed(code: int, description: string, date: string)
    ensures var page := Octets(ErrorPage(code, description));
            var hs := ErrorHeaders(|page|, date);
            && ErrorResponse(code, description, date) == AsciiBytes(HeadText("HTTP/1.1 " + IntText(code) + " " + description, hs)) + page
            && GetHeader(hs, "Content-Length") == Some(IntText(|page|))
            && GetHeader(hs, "Connection") == Some("close")
  {
    var page := Octets(ErrorPage(code, description));
    var hs := ErrorHeaders(|page|, date);
    NamesOfLength("Content-Type", "Content-Length");
    NamesOfLength("Content-Type", "Connection");
    NamesDiffer();
    assert hs == [hs[0]] + [hs[1]] + [hs[2]] + hs[3..];
    GetHeaderSingle(hs[0], "Content-Length");
    GetHeaderSingle(hs[1], "Content-Length");
    GetHeaderSingle(hs[0], "Connection");
    GetHeaderSingle(hs[1], "Connection");
    GetHeaderSingle(hs[2], "Connection");
    GetHeaderAppend([hs[0]], [hs[1]] + [hs[2]] + hs[3..], "Content-Length");
    GetHeaderAppend([hs[1]], [hs[2]] + hs[3..], "Content-Length");
    GetHeaderAppend([hs[0]], [hs[1]] + [hs[2]] + hs[3..], "Connection");
    GetHeaderAppend([hs[1]], [hs[2]] + hs[3..], "Connection");
    GetHeaderAppend([hs[2]], hs[3..], "Connection");
    assert [hs[0]] + ([hs[1]] + [hs[2]] + hs[3..]) == hs;
    assert [hs[1]] + ([hs[2]] + hs[3..]) == [hs[1]] + [hs[2]] + hs[3..];
  }

  // ---------------------------------------------------------------------
  // The request loop (InvokeAsync)
  // ---------------------------------------------------------------------

  /**
   * The kinds of exception the loop's catch clauses tell apart: an
   * OperationCanceledException while the connection itself is not
   * cancelled (a timeout), an IOException, an InvalidDataException, and
   * any other exception.
   */
  datatype Failure = TimedOut | IoFailure | InvalidData | OtherFailure

  /** What the next step leaves behind for a request: a response, a null response, or an exception of some kind. */
  datatype Reply = Answers(response: Response) | Clears | Throws(failure: Failure)

  /** The next step, as a function of the request it is handed. */
  type Handler = (RequestLine, seq<Header>) -> Reply

  /** A request as it is handed on: its line and its headers. */
  datatype Exchange = Exchange(line: RequestLine, headers: seq<Header>)

  /**
   * A connection served from some point on: the bytes written, the number
   * of requests handed to the next step, and the last of them.
   */
  datatype Served = Served(output: Bytes, requests: nat, last: Option<Exchange>)

  /** `written` and `n` requests, the last of them `last`, followed by `later`. */
  function Before(written: Bytes, n: nat, last: Option<Exchange>, later: Served): (r: Served)
    ensures r.output == written + later.output && r.requests == n + later.requests
    ensures r.last == if later.last.Some? then later.last else last
  {
    Served(written + later.output, n + later.requests, if later.last.Some? then later.last else last)
  }

  /** The 500 page the general catch sends. */
  function InternalError(date: string): Bytes
  {
    ErrorResponse(500, "Internal Server Error", date)
  }

  /**
   * WriteResponseAsync and what follows it: the head and a seekable body,
   * after which the loop goes on if the connection is kept alive; for a
   * body that cannot seek, the head and then the 500 page of the general
   * catch, and the loop ends.
   */
  function Written(version: string, r: Response, keepAlive: bool, date: string): (Bytes, bool)
  {
    var head := AsciiBytes(ResponseHead(version, r, keepAlive, date));
    match r.body
    case NoBody => (head, keepAlive)
    case Seekable(data) => (head + data, keepAlive)
    case Unseekable(_) => (head + InternalError(date), false)
  }

  /**
   * What the catch clause for an exception of kind `f` thrown by the next
   * step writes before the loop breaks. A request was read, so the request
   * count is positive and a timeout writes nothing; an IOException writes
   * nothing; an InvalidDataException writes the 400 page; any other
   * exception the 500 page.
   */
  function Caught(f: Failure, date: string): Bytes
  {
    match f
    case TimedOut => []
    case IoFailure => []
    case InvalidData => ErrorResponse(400, "Bad Request", date)
    case OtherFailure => InternalError(date)
  }

  /** What is written once the next step has run, and whether the loop goes on. */
  function Answer(version: string, reply: Reply, keepAlive: bool, date: string): (Bytes, bool)
  {
    match reply
    case Throws(f) => (Caught(f, date), false)
    case Clears => Written(version, Missing, keepAlive, date)
    case Answers(r) => Written(version, r, keepAlive, date)
  }

  /** Whether the request asks for chunked transfer, and the Content-Length its body stream starts with. */
  function BodyMode(hs: seq<Header>): (bool, int)
  {
    var chunked := IsChunked(GetHeader(hs, "Transfer-Encoding"));
    (chunked, InitialLength(chunked, GetHeader(hs, "Content-Length")))
  }

  /**
   * The loop from position `p` of the input, `first` while no request was
   * read yet; `date` stands for every Date header it writes.
   */
  function Serve(input: Bytes, p: nat, first: bool, handler: Handler, date: string): Served
    requires p <= |input|
    decreases |input| - p, 1
  {
    RequestHeadUsed(input, p);
    ServeAfter(input, p, RequestHead(input, p), first, handler, date)
  }

  /**
   * The loop once the head at `p` was read as `h`: no request ends it
   * quietly; a head the stream ends inside of times out, answered with 408
   * only before the first request; a malformed head is answered with 400;
   * a request has its body drained (a failing drain ends keep-alive), is
   * handed to the next step and answered, and the loop goes on after its
   * body while the connection is kept alive.
   */
  function ServeAfter(input: Bytes, p: nat, h: HeadRead, first: bool, handler: Handler, date: string): Served
    requires p <= |input| && (h.Head? ==> 1 <= h.used <= |input| - p)
    decreases |input| - p, 0
  {
    if !h.Head? then Served(Refused(h, first, date), 0, None)
    else
      var q := p + h.used;
      var mode := BodyMode(h.headers);
      var d := BodyDrain(mode.0, mode.1, input[q..]);
      var keepAlive := KeepAliveOf(h.line.version, GetHeader(h.headers, "Connection")) && !d.1;
      Continue(input, q + d.0, Exchange(h.line, h.headers), Answer(h.line.version, handler(h.line, h.headers), keepAlive, date), handler, date)
  }

  /** What a head that is not a request is answered with. */
  function Refused(h: HeadRead, first: bool, date: string): Bytes
    requires !h.Head?
  {
    match h
    case Closed => []
    case Stalled => if first then ErrorResponse(408, "Request Timeout", date) else []
    case Malformed => ErrorResponse(400, "Bad Request", date)
  }

  /** After the request `x` was answered with `a`: the loop goes on at `q` when `a` says so. */
  function Continue(input: Bytes, q: nat, x: Exchange, a: (Bytes, bool), handler: Handler, date: string): Served
    requires q <= |input|
    decreases |input| - q, 2
  {
    if a.1 then Before(a.0, 1, Some(x), Serve(input, q, false, handler, date))
    else Served(a.0, 1, Some(x))
  }

  /** The items once `last`, if any, was stored under "HTTP_CONTEXT". */
  function Stored(items: Items, last: Option<Exchange>): Items
  {
    if last.Some? then items["HTTP_CONTEXT" := Http1Item(last.value.line, last.value.headers)] else items
  }

  /** The loop where the head at `p` was read as `h`. */
  lemma ServeIs(input: Bytes, p: nat, h: HeadRead, first: bool, handler: Handler, date: string)
    requires p <= |input| && h == RequestHead(input, p)
    ensures h.Head? ==> 1 <= h.used <= |input| - p
    ensures Serve(input, p, first, handler, date) == ServeAfter(input, p, h, first, handler, date)
  {
    RequestHeadUsed(input, p);
  }

  /** The loop after a request whose body drain came back as `n` bytes and `failed`, and whose answer was `written` and `go`. */
  lemma ServeHead(input: Bytes, p: nat, h: HeadRead, first: bool, handler: Handler, date: string,
                  n: nat, failed: bool, written: Bytes, go: bool, q: nat)
    requires h.Head? && 1 <= h.used <= |input| - p && q == p + h.used + n
    requires (n, failed) == BodyDrain(BodyMode(h.headers).0, BodyMode(h.headers).1, input[p + h.used..])
    requires (written, go) == Answer(h.line.version, handler(h.line, h.headers),
                                     KeepAliveOf(h.line.version, GetHeader(h.headers, "Connection")) && !failed, date)
    ensures q <= |input|
    ensures ServeAfter(input, p, h, first, handler, date)
            == Continue(input, q, Exchange(h.line, h.headers), (written, go), handler, date)
  {
  }


  /** Continue, spelled out. */
  lemma ContinueIs(input: Bytes, q: nat, x: Exchange, written: Bytes, go: bool, handler: Handler, date: string)
    requires q <= |input|
    ensures go ==> Continue(input, q, x, (written, go), handler, date) == Before(written, 1, Some(x), Serve(input, q, false, handler, date))
    ensures !go ==> Continue(input, q, x, (written, go), handler, date) == Served(written, 1, Some(x))
  {
  }

  /**
   * The body stream ReadRequestAsync builds for a request with headers
   * `hs`, drained: the bytes taken and whether a read threw.
   */
  method DrainBody(stream: Channel, hs: seq<Header>) returns (failed: bool, ghost n: nat)
    requires stream.Valid()
    modifies stream`pos
    ensures stream.Valid() && stream.pos == old(stream.pos) + n
    ensures (n, failed) == BodyDrain(BodyMode(hs).0, BodyMode(hs).1, old(stream.Remaining()))
  {
    var body := new HttpRequestBodyStream(stream, GetHeader(hs, "Content-Length"), GetHeader(hs, "Transfer-Encoding"));
    assert Undrained(body) == BodyDrain(BodyMode(hs).0, BodyMode(hs).1, stream.Remaining());
    failed := ConsumeRequestBody(body);
    n := stream.pos - old(stream.pos);
  }

  /**
   * Everything after the next step ran: when it threw, what the catch
   * clause for that kind of exception sends, and the loop ends; otherwise
   * the response it left (a 500 one when it left none) written.
   */
  method Respond(stream: Channel, version: string, reply: Reply, keepAlive: bool, date: string) returns (go: bool, ghost written: Bytes)
    requires stream.Valid()
    modifies stream`output
    ensures stream.output == old(stream.output) + written
    ensures (written, go) == Answer(version, reply, keepAlive, date)
  {
    if reply.Throws? {
      written := Catch(stream, reply.failure, date);
      return false, written;
    }
    var response := if reply.Clears? then Missing else reply.response;
    go, written := WriteAnswer(stream, version, response, keepAlive, date);
  }

  /** The catch clause for an exception of kind `f`: the 400 page, the 500 page, or nothing. */
  method Catch(stream: Channel, f: Failure, date: string) returns (ghost written: Bytes)
    requires stream.Valid()
    modifies stream`output
    ensures written == Caught(f, date) && stream.output == old(stream.output) + written
  {
    match f {
      case TimedOut =>
        written := [];
      case IoFailure =>
        written := [];
      case InvalidData =>
        SendErrorResponse(stream, 400, "Bad Request", date);
        written := ErrorResponse(400, "Bad Request", date);
      case OtherFailure =>
        SendInternalError(stream, date);
        written := InternalError(date);
    }
  }

  /** The general catch's 500 page. */
  method SendInternalError(stream: Channel, date: string)
    requires stream.Valid()
    modifies stream`output
    ensures stream.output == old(stream.output) + InternalError(date)
  {
    SendErrorResponse(stream, 500, "Internal Server Error", date);
  }

  /**
   * WriteResponseAsync, followed by the 500 page of the general catch when
   * the body cannot seek; `go` is then false, and otherwise `keepAlive`.
   */
  method WriteAnswer(stream: Channel, version: string, r: Response, keepAlive: bool, date: string) returns (go: bool, ghost written: Bytes)
    requires stream.Valid()
    modifies stream`output
    ensures stream.output == old(stream.output) + written
    ensures (written, go) == Written(version, r, keepAlive, date)
  {
    ghost var before := stream.output;
    ghost var head := AsciiBytes(ResponseHead(version, r, keepAlive, date));
    var ok := WriteResponseAsync(stream, version, r, keepAlive, date);
    if r.body.Seekable? {
      ConcatAssoc(before, head, r.body.data);
      written := head + r.body.data;
    } else {
      assert head + [] == head;
      assert stream.output == before + head;
      written := head;
    }
    if !ok {
      SendInternalError(stream, date);
      ConcatAssoc(before, head, InternalError(date));
      return false, head + InternalError(date);
    }
    go := keepAlive;
  }

  /** ReadRequestAsync, seen from the loop. */
  method ReadHead(stream: Channel, ghost first: bool, ghost handler: Handler, ghost date: string) returns (h: HeadRead)
    requires stream.Valid()
    modifies stream`pos
    ensures stream.Valid() && old(stream.pos) <= stream.pos
    ensures h.Head? ==> 1 <= h.used && stream.pos == old(stream.pos) + h.used
    ensures Serve(stream.input, old(stream.pos), first, handler, date) == ServeAfter(stream.input, old(stream.pos), h, first, handler, date)
  {
    ghost var at := stream.pos;
    h := ReadRequestAsync(stream);
    ServeIs(stream.input, at, h, first, handler, date);
  }

  /**
   * A request read: its body drained (a failing drain ends keep-alive), the
   * request stored under "HTTP_CONTEXT", handed to the next step, and
   * answered.
   */
  method HandleRequest(ctx: NetworkContext, line: RequestLine, hs: seq<Header>, handler: Handler, date: string)
    returns (go: bool, failed: bool, ghost n: nat, ghost written: Bytes)
    requires ctx.connection.Valid()
    modifies ctx.connection`pos, ctx.connection`output, ctx`items
    ensures ctx.connection.Valid() && ctx.connection.input == old(ctx.connection.input)
    ensures ctx.connection.pos == old(ctx.connection.pos) + n
    ensures (n, failed) == BodyDrain(BodyMode(hs).0, BodyMode(hs).1, old(ctx.connection.Remaining()))
    ensures (written, go) == Answer(line.version, handler(line, hs), KeepAliveOf(line.version, GetHeader(hs, "Connection")) && !failed, date)
    ensures ctx.connection.output == old(ctx.connection.output) + written
    ensures ctx.items == old(ctx.items)["HTTP_CONTEXT" := Http1Item(line, hs)]
  {
    var stream := ctx.connection;
    var keepAlive := KeepAliveOf(line.version, GetHeader(hs, "Connection"));
    failed, n := DrainBody(stream, hs);
    if failed {
      keepAlive := false;
    }
    ctx.items := ctx.items["HTTP_CONTEXT" := Http1Item(line, hs)];
    go, written := Respond(stream, line.version, handler(line, hs), keepAlive, date);
  }

  /**
   * A head that is not a request: nothing when the stream ended, the 408
   * page when it timed out before the first request, the 400 page when it
   * was malformed.
   */
  method Refuse(stream: Channel, h: HeadRead, first: bool, date: string, ghost input: Bytes, ghost p: nat, ghost handler: Handler)
    returns (ghost written: Bytes)
    requires stream.Valid() && p <= |input| && !h.Head?
    modifies stream`output
    ensures stream.output == old(stream.output) + written
    ensures written == Refused(h, first, date)
    ensures ServeAfter(input, p, h, first, handler, date) == Served(written, 0, None)
  {
    match h {
      case Closed =>
        assert stream.output == old(stream.output) + [];
        written := [];
      case Stalled =>
        if first {
          SendErrorResponse(stream, 408, "Request Timeout", date);
          written := ErrorResponse(408, "Request Timeout", date);
        } else {
          assert stream.output == old(stream.output) + [];
          written := [];
        }
      case Malformed =>
        SendErrorResponse(stream, 400, "Bad Request", date);
        written := ErrorResponse(400, "Bad Request", date);
    }
  }

  /**
   * One turn of the loop: the head, then the 400 or 408 page, or the
   * request handled. `go` says whether the loop goes on.
   */
  method ServeRequest(ctx: NetworkContext, first: bool, handler: Handler, date: string)
    returns (go: bool, exchange: Option<Exchange>, ghost written: Bytes)
    requires ctx.connection.Valid()
    modifies ctx.connection`pos, ctx.connection`output, ctx`items
    ensures ctx.connection.Valid() && ctx.connection.input == old(ctx.connection.input)
    ensures old(ctx.connection.pos) <= ctx.connection.pos
    ensures ctx.connection.output == old(ctx.connection.output) + written
    ensures ctx.items == Stored(old(ctx.items), exchange)
    ensures go ==> old(ctx.connection.pos) < ctx.connection.pos && exchange.Some?
    ensures go ==> Serve(ctx.connection.input, old(ctx.connection.pos), first, handler, date)
                   == Before(written, 1, exchange, Serve(ctx.connection.input, ctx.connection.pos, false, handler, date))
    ensures !go ==> Serve(ctx.connection.input, old(ctx.connection.pos), first, handler, date)
                    == Served(written, if exchange.Some? then 1 else 0, exchange)
  {
    var stream := ctx.connection;
    ghost var input := stream.input;
    var at := stream.pos;
    var h := ReadHead(stream, first, handler, date);
    if !h.Head? {
      written := Refuse(stream, h, first, date, input, at, handler);
      return false, None, written;
    }
    ghost var q;
    go, written, q := AnswerHead(ctx, h, first, handler, date, input, at);
    exchange := Some(Exchange(h.line, h.headers));
    ContinueIs(input, stream.pos, Exchange(h.line, h.headers), written, go, handler, date);
  }

  /** A request whose head `h` was read at `at`: drained, stored, answered. */
  method AnswerHead(ctx: NetworkContext, h: HeadRead, ghost first: bool, handler: Handler, date: string, ghost input: Bytes, ghost at: nat)
    returns (go: bool, ghost written: Bytes, ghost q: nat)
    requires ctx.connection.Valid() && input == ctx.connection.input
    requires h.Head? && 1 <= h.used && at + h.used == ctx.connection.pos
    modifies ctx.connection`pos, ctx.connection`output, ctx`items
    ensures ctx.connection.Valid() && ctx.connection.input == input
    ensures old(ctx.connection.pos) <= ctx.connection.pos == q
    ensures ctx.connection.output == old(ctx.connection.output) + written
    ensures ctx.items == old(ctx.items)["HTTP_CONTEXT" := Http1Item(h.line, h.headers)]
    ensures q <= |input| && ServeAfter(input, at, h, first, handler, date) == Continue(input, q, Exchange(h.line, h.headers), (written, go), handler, date)
  {
    ghost var rest := ctx.connection.Remaining();
    var failed;
    ghost var n;
    go, failed, n, written := HandleRequest(ctx, h.line, h.headers, handler, date);
    q := at + h.used + n;
    assert rest == input[at + h.used..];
    ghost var mode := BodyMode(h.headers);
    assert (n, failed) == BodyDrain(mode.0, mode.1, input[at + h.used..]);
    ServeHead(input, at, h, first, handler, date, n, failed, written, go, q);
  }


  /** Two stretches of the loop, one after the other. */
  lemma BeforeBefore(done: Bytes, c: nat, last: Option<Exchange>, w: Bytes, x: Exchange, later: Served)
    ensures Before(done, c, last, Before(w, 1, Some(x), later)) == Before(done + w, c + 1, Some(x), later)
  {
    ConcatAssoc(done, w, later.output);
  }

  /** A stretch of the loop followed by its last turn. */
  lemma BeforeServed(done: Bytes, c: nat, last: Option<Exchange>, w: Bytes, x: Option<Exchange>)
    ensures Before(done, c, last, Served(w, if x.Some? then 1 else 0, x))
            == Served(done + w, c + (if x.Some? then 1 else 0), if x.Some? then x else last)
  {
  }

  /** Storing twice under "HTTP_CONTEXT" keeps the later. */
  lemma StoredStored(items: Items, a: Option<Exchange>, b: Option<Exchange>)
    ensures Stored(Stored(items, a), b) == Stored(items, if b.Some? then b else a)
  {
    if a.Some? && b.Some? {
      var k := "HTTP_CONTEXT";
      assert items[k := Http1Item(a.value.line, a.value.headers)][k := Http1Item(b.value.line, b.value.headers)]
             == items[k := Http1Item(b.value.line, b.value.headers)];
    }
  }

  /**
   * InvokeAsync: a connection not classified as HTTP/1 under
   * "HTTP_PROTOCOL" only runs `next`; otherwise requests are served while
   * the connection is kept alive, and `next` runs once per request.
   */
  method InvokeAsync(ctx: NetworkContext, handler: Handler, date: string) returns (nexts: nat)
    requires ctx.connection.Valid()
    modifies ctx.connection`pos, ctx.connection`output, ctx`items
    ensures ctx.connection.Valid() && ctx.connection.input == old(ctx.connection.input)
    ensures !HasProtocol(old(ctx.items), "HTTP_PROTOCOL", Http1) ==>
              nexts == 1 && ctx.connection.output == old(ctx.connection.output) && ctx.items == old(ctx.items)
    ensures HasProtocol(old(ctx.items), "HTTP_PROTOCOL", Http1) ==>
              var s := Serve(ctx.connection.input, old(ctx.connection.pos), true, handler, date);
              && ctx.connection.output == old(ctx.connection.output) + s.output
              && nexts == s.requests
              && ctx.items == Stored(old(ctx.items), s.last)
  {
    if !HasProtocol(ctx.items, "HTTP_PROTOCOL", Http1) {
      return 1;
    }
    var stream := ctx.connection;
    ghost var input := stream.input;
    ghost var start := stream.pos;
    ghost var out0 := stream.output;
    ghost var items0 := ctx.items;
    ghost var whole := Serve(input, start, true, handler, date);
    ghost var done: Bytes := [];
    ghost var last: Option<Exchange> := None;
    var keepAlive := true;
    var requestCount := 0;
    assert out0 + [] == out0;
    while keepAlive
      invariant ctx.connection == stream && stream.Valid() && stream.input == input
      invariant stream.output == out0 + done
      invariant ctx.items == Stored(items0, last)
      invariant keepAlive ==> whole == Before(done, requestCount, last, Serve(input, stream.pos, requestCount == 0, handler, date))
      invariant !keepAlive ==> whole == Served(done, requestCount, last)
      decreases |input| - stream.pos, keepAlive
    {
      var go, exchange, written := ServeRequest(ctx, requestCount == 0, handler, date);
      ConcatAssoc(out0, done, written);
      StoredStored(items0, last, exchange);
      if go {
        BeforeBefore(done, requestCount, last, written, exchange.value, Serve(input, stream.pos, false, handler, date));
      } else {
        BeforeServed(done, requestCount, last, written, exchange);
      }
      done := done + written;
      if exchange.Some? {
        requestCount := requestCount + 1;
        last := exchange;
      }
      keepAlive := go;
    }
    return requestCount;
  }

  // ---------------------------------------------------------------------
  // What the loop promises
  // ---------------------------------------------------------------------

  /** A body that can seek is written whole after the head, and the loop goes on exactly when the connection is kept alive. */
  lemma SeekableWritten(version: string, r: Response, keepAlive: bool, date: string)
    requires !r.body.Unseekable?
    ensures Written(version, r, keepAlive, date) == (AsciiBytes(ResponseHead(version, r, keepAlive, date)) + Content(r.body), keepAlive)
  {
    var head := AsciiBytes(ResponseHead(version, r, keepAlive, date));
    assert head + [] == head;
  }

  /** A request line that does not split into three parts is answered with the 400 page, and nothing else happens. */
  lemma MalformedAnswered(text: string, rest: Bytes, first: bool, handler: Handler, date: string)
    requires Plain(text) && !AllWhite(text)
    requires forall i, j :: 0 <= i < j < |text| ==> !(text[i] == ' ' && text[j] == ' ')
    ensures Serve(AsciiBytes(text + "\r\n") + rest, 0, first, handler, date) == Served(ErrorResponse(400, "Bad Request", date), 0, None)
  {
    var x := AsciiBytes(text + "\r\n") + rest;
    MalformedRequest(text, rest);
    ServeIs(x, 0, Malformed, first, handler, date);
  }

  /**
   * A keep-alive request with a chunked body: the next step sees it, its
   * answer is written with "Connection: keep-alive", and the loop goes on
   * with the bytes right after the body's last chunk.
   */
  lemma NextRequestAfterBody(line: RequestLine, hs: seq<Header>, chunks: seq<Bytes>, rest: Bytes,
                             r: Response, first: bool, handler: Handler, date: string)
    requires ' ' !in line.verb && ' ' !in line.path && line.verb != ""
    requires Printable(RequestLineText(line))
    requires forall i :: 0 <= i < |hs| ==> WellFormed(hs[i])
    requires |RequestLineText(line)| + 2 + SectionSize(hs) <= MaxHeaderSize
    requires IsChunked(GetHeader(hs, "Transfer-Encoding")) && KeepAliveOf(line.version, GetHeader(hs, "Connection"))
    requires forall k :: 0 <= k < |chunks| ==> 0 < |chunks[k]| < TWO31
    requires |Concat(chunks)| < DrainSize
    requires handler(line, hs) == Answers(r) && !r.body.Unseekable?
    ensures var head := AsciiBytes(HeadText(RequestLineText(line), hs));
            GoesOnAt(head + EncodeChunks(chunks) + rest, first, handler, date,
                     AsciiBytes(ResponseHead(line.version, r, true, date)) + Content(r.body), Exchange(line, hs),
                     |head| + |EncodeChunks(chunks)|)
  {
    var head := AsciiBytes(HeadText(RequestLineText(line), hs));
    var body := EncodeChunks(chunks);
    var input := head + body + rest;
    var used := |RequestLineText(line)| + 2 + SectionSize(hs);
    HeadThenBody(line, hs, head, body, rest, input, used);
    assert BodyMode(hs) == (true, 0);
    EncodedBodyDrained(chunks, rest);
    SeekableWritten(line.version, r, true, date);
    KeepAliveServed(input, Head(line, hs, used), |body|, first, handler, date,
                    AsciiBytes(ResponseHead(line.version, r, true, date)) + Content(r.body),
                    |head| + |body|, Exchange(line, hs));
  }

  /** The loop from the start answers the request `x` with `written`, then goes on at `q`. */
  predicate GoesOnAt(input: Bytes, first: bool, handler: Handler, date: string, written: Bytes, x: Exchange, q: nat)
  {
    q <= |input| && Serve(input, 0, first, handler, date) == Before(written, 1, Some(x), Serve(input, q, false, handler, date))
  }

  /** The loop over a keep-alive request read at the start: its answer, then the loop after its body. */
  lemma KeepAliveServed(input: Bytes, h: HeadRead, n: nat, first: bool, handler: Handler, date: string, written: Bytes,
                         q: nat, x: Exchange)
    requires h.Head? && h == RequestHead(input, 0) && 1 <= h.used <= |input|
    requires BodyDrain(BodyMode(h.headers).0, BodyMode(h.headers).1, input[h.used..]) == (n, false)
    requires KeepAliveOf(h.line.version, GetHeader(h.headers, "Connection"))
    requires Answer(h.line.version, handler(h.line, h.headers), true, date) == (written, true)
    requires q == h.used + n && x == Exchange(h.line, h.headers)
    ensures GoesOnAt(input, first, handler, date, written, x, q)
  {
    ServeIs(input, 0, h, first, handler, date);
    KeepAliveTurn(input, h, n, first, handler, date, written);
  }

  /** A written request head read back, and where what follows it starts. */
  lemma HeadThenBody(line: RequestLine, hs: seq<Header>, head: Bytes, body: Bytes, rest: Bytes, input: Bytes, used: nat)
    requires ' ' !in line.verb && ' ' !in line.path && line.verb != ""
    requires Printable(RequestLineText(line))
    requires forall i :: 0 <= i < |hs| ==> WellFormed(hs[i])
    requires |RequestLineText(line)| + 2 + SectionSize(hs) <= MaxHeaderSize
    requires head == AsciiBytes(HeadText(RequestLineText(line), hs)) && input == head + body + rest
    requires used == |RequestLineText(line)| + 2 + SectionSize(hs)
    ensures RequestHead(input, 0) == Head(line, hs, used)
    ensures used == |head| && input[used..] == body + rest
  {
    assert input == head + (body + rest);
    RequestHeadRoundTrip(line, hs, body + rest);
  }

  /** One keep-alive turn of the loop: the answer is written and the loop goes on after the body. */
  lemma KeepAliveTurn(input: Bytes, h: HeadRead, n: nat, first: bool, handler: Handler, date: string, written: Bytes)
    requires h.Head? && 1 <= h.used <= |input|
    requires BodyDrain(BodyMode(h.headers).0, BodyMode(h.headers).1, input[h.used..]) == (n, false)
    requires KeepAliveOf(h.line.version, GetHeader(h.headers, "Connection"))
    requires Answer(h.line.version, handler(h.line, h.headers), true, date) == (written, true)
    ensures h.used + n <= |input|
    ensures ServeAfter(input, 0, h, first, handler, date)
            == Before(written, 1, Some(Exchange(h.line, h.headers)), Serve(input, h.used + n, false, handler, date))
  {
    assert input[0 + h.used..] == input[h.used..];
    ServeHead(input, 0, h, first, handler, date, n, false, written, true, h.used + n);
    ContinueIs(input, h.used + n, Exchange(h.line, h.headers), written, true, handler, date);
  }

  /**
   * A request asking for "Connection: close": the next step sees it, its
   * answer is written with "Connection: close", and nothing after it is
   * read.
   */
  lemma ClosingRequest(line: RequestLine, hs: seq<Header>, rest: Bytes, r: Response, first: bool, handler: Handler, date: string)
    requires ' ' !in line.verb && ' ' !in line.path && line.verb != ""
    requires Printable(RequestLineText(line))
    requires forall i :: 0 <= i < |hs| ==> WellFormed(hs[i])
    requires |RequestLineText(line)| + 2 + SectionSize(hs) <= MaxHeaderSize
    requires GetHeader(hs, "Transfer-Encoding") == None && GetHeader(hs, "Content-Length") == None
    requires GetHeader(hs, "Connection") == Some("close")
    requires handler(line, hs) == Answers(r) && !r.body.Unseekable?
    ensures Serve(AsciiBytes(HeadText(RequestLineText(line), hs)) + rest, 0, first, handler, date)
            == Served(AsciiBytes(ResponseHead(line.version, r, false, date)) + Content(r.body), 1, Some(Exchange(line, hs)))
  {
    var input := AsciiBytes(HeadText(RequestLineText(line), hs)) + rest;
    var used := |RequestLineText(line)| + 2 + SectionSize(hs);
    var h := Head(line, hs, used);
    RequestHeadRoundTrip(line, hs, rest);
    ServeIs(input, 0, h, first, handler, date);
    assert !KeepAliveOf(line.version, Some("close"));
    var a := Answer(line.version, handler(line, hs), false, date);
    assert a == (AsciiBytes(ResponseHead(line.version, r, false, date)) + Content(r.body), false) by {
      SeekableWritten(line.version, r, false, date);
    }
    ServeHead(input, 0, h, first, handler, date, 0, false, a.0, a.1, used);
    ContinueIs(input, used, Exchange(line, hs), a.0, a.1, handler, date);
  }

  /**
   * A request whose next step throws ends the loop, keep-alive or not:
   * after an IOException or a timeout nothing is written, after an
   * InvalidDataException the 400 page, after anything else the 500 page,
   * and nothing after the request is read.
   */
  lemma ThrowingHandlerEnds(line: RequestLine, hs: seq<Header>, rest: Bytes, f: Failure, first: bool, handler: Handler, date: string)
    requires ' ' !in line.verb && ' ' !in line.path && line.verb != ""
    requires Printable(RequestLineText(line))
    requires forall i :: 0 <= i < |hs| ==> WellFormed(hs[i])
    requires |RequestLineText(line)| + 2 + SectionSize(hs) <= MaxHeaderSize
    requires GetHeader(hs, "Transfer-Encoding") == None && GetHeader(hs, "Content-Length") == None
    requires handler(line, hs) == Throws(f)
    ensures Serve(AsciiBytes(HeadText(RequestLineText(line), hs)) + rest, 0, first, handler, date)
            == Served(Caught(f, date), 1, Some(Exchange(line, hs)))
    ensures f.IoFailure? || f.TimedOut? ==> Caught(f, date) == []
    ensures f.InvalidData? ==> Caught(f, date) == ErrorResponse(400, "Bad Request", date)
    ensures f.OtherFailure? ==> Caught(f, date) == ErrorResponse(500, "Internal Server Error", date)
  {
    var input := AsciiBytes(HeadText(RequestLineText(line), hs)) + rest;
    var used := |RequestLineText(line)| + 2 + SectionSize(hs);
    var h := Head(line, hs, used);
    RequestHeadRoundTrip(line, hs, rest);
    ServeIs(input, 0, h, first, handler, date);
    var keepAlive := KeepAliveOf(line.version, GetHeader(hs, "Connection"));
    var a := Answer(line.version, handler(line, hs), keepAlive, date);
    ServeHead(input, 0, h, first, handler, date, 0, false, a.0, a.1, used);
    ContinueIs(input, used, Exchange(line, hs), a.0, a.1, handler, date);
  }

  // ---------------------------------------------------------------------
  // A body that cannot seek
  // ---------------------------------------------------------------------

  /**
   * As written, the writer asks a body that cannot seek for its Length
   * after the head went out; the NotSupportedException lands in the
   * general catch, so the client gets the head followed by the 500 page
   * instead of the body, and the connection ends.
   */
  lemma UnseekableBodyLost(version: string, r: Response, keepAlive: bool, date: string)
    requires r.body.Unseekable? && r.body.data != InternalError(date)
    ensures var head := AsciiBytes(ResponseHead(version, r, keepAlive, date));
            && Written(version, r, keepAlive, date).0 != head + r.body.data
            && Written(version, r, keepAlive, date).0[|head|..] == InternalError(date)
            && !Written(version, r, keepAlive, date).1
  {
    var head := AsciiBytes(ResponseHead(version, r, keepAlive, date));
    assert (head + InternalError(date))[|head|..] == InternalError(date);
    assert (head + r.body.data)[|head|..] == r.body.data;
  }

  /**
   * What the writer evidently means for every body: the head, then the
   * body's bytes copied out, and the loop goes on exactly when the head
   * kept the connection alive.
   */
  function WrittenFixed(version: string, r: Response, keepAlive: bool, date: string): (Bytes, bool)
  {
    (AsciiBytes(ResponseHead(version, r, keepAlive, date)) + Content(r.body), KeepsAlive(r, keepAlive))
  }

  /**
   * The corrected writer delivers every body after the head, agrees with
   * the one as written on bodies that can seek, and, unless the handler
   * set its own Connection header, ends the loop exactly when the head
   * said "Connection: close".
   */
  lemma WrittenFixedDelivers(version: string, r: Response, keepAlive: bool, date: string)
    ensures var head := AsciiBytes(ResponseHead(version, r, keepAlive, date));
            WrittenFixed(version, r, keepAlive, date).0[|head|..] == Content(r.body)
    ensures !r.body.Unseekable? ==> WrittenFixed(version, r, keepAlive, date) == Written(version, r, keepAlive, date)
    ensures !HasHeader(r.headers, "Connection") ==>
              (!WrittenFixed(version, r, keepAlive, date).1 <==> ConnectionHeaders(r, keepAlive) == [("Connection", "close")])
  {
    var head := AsciiBytes(ResponseHead(version, r, keepAlive, date));
    assert (head + Content(r.body))[|head|..] == Content(r.body);
    if !r.body.Unseekable? {
      SeekableWritten(version, r, keepAlive, date);
    }
    if KeepsAlive(r, keepAlive) && !HasHeader(r.headers, "Connection") {
      assert ConnectionHeaders(r, keepAlive)[0].1 == "keep-alive";
    }
  }
}
