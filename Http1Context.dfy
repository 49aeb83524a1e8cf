/**
 * Http1Context (WRM/WRM.Core): the HTTP context the WRM.Core HTTP/1 step
 * hands to the next step. It holds the connection and the parsed request,
 * and whether the connection is to be kept alive; the next step answers
 * through WriteResponse, which writes the head with the headers the
 * context adds and then the body, or turns the connection into a tunnel
 * with MakeTunel. Either may end keep-alive.
 */
module Http1Context {
  import opened Common
  import opened Strings
  import opened Decimal
  import opened Channel
  import opened Http1Syntax

  // ---------------------------------------------------------------------
  // Requests and responses
  // ---------------------------------------------------------------------

  /** HttpRequest: whether the connection is TLS, the request line's three parts, the headers in order. */
  datatype CoreRequest = CoreRequest(isSsl: bool, verb: string, path: string, version: string, headers: seq<Header>)

  /** HttpResponse: the status code, the reason phrase (null unless set), the handler's headers in order. */
  datatype CoreResponse = CoreResponse(status: int, reasonPhrase: Option<string>, headers: seq<Header>)

  /** `new HttpResponse()`. */
  const NewResponse: CoreResponse := CoreResponse(200, None, [])

  /** The status codes GetReasonPhrase knows, as runs of consecutive codes. */
  predicate KnownStatus(status: int)
  {
    || 100 <= status <= 103
    || 200 <= status <= 206
    || 300 <= status <= 305 || 307 <= status <= 308
    || 400 <= status <= 418 || 421 <= status <= 426 || status == 428 || status == 429 || status == 431 || status == 451
    || 500 <= status <= 508 || 510 <= status <= 511
  }

  /** GetReasonPhrase: the standard phrase of a known status code; the empty string for any other. */
  function ReasonPhrase(status: int): (r: string)
    ensures r != "" <==> KnownStatus(status)
  {
    match status
    case 100 => "Continue"
    case 101 => "Switching Protocols"
    case 102 => "Processing"
    case 103 => "Early Hints"
    case 200 => "OK"
    case 201 => "Created"
    case 202 => "Accepted"
    case 203 => "Non-Authoritative Information"
    case 204 => "No Content"
    case 205 => "Reset Content"
    case 206 => "Partial Content"
    case 300 => "Multiple Choices"
    case 301 => "Moved Permanently"
    case 302 => "Found"
    case 303 => "See Other"
    case 304 => "Not Modified"
    case 305 => "Use Proxy"
    case 307 => "Temporary Redirect"
    case 308 => "Permanent Redirect"
    case 400 => "Bad Request"
    case 401 => "Unauthorized"
    case 402 => "Payment Required"
    case 403 => "Forbidden"
    case 404 => "Not Found"
    case 405 => "Method Not Allowed"
    case 406 => "Not Acceptable"
    case 407 => "Proxy Authentication Required"
    case 408 => "Request Timeout"
    case 409 => "Conflict"
    case 410 => "Gone"
    case 411 => "Length Required"
    case 412 => "Precondition Failed"
    case 413 => "Payload Too Large"
    case 414 => "URI Too Long"
    case 415 => "Unsupported Media Type"
    case 416 => "Range Not Satisfiable"
    case 417 => "Expectation Failed"
    case 418 => "I'm a teapot"
    case 421 => "Misdirected Request"
    case 422 => "Unprocessable Content"
    case 423 => "Locked"
    case 424 => "Failed Dependency"
    case 425 => "Too Early"
    case 426 => "Upgrade Required"
    case 428 => "Precondition Required"
    case 429 => "Too Many Requests"
    case 431 => "Request Header Fields Too Large"
    case 451 => "Unavailable For Legal Reasons"
    case 500 => "Internal Server Error"
    case 501 => "Not Implemented"
    case 502 => "Bad Gateway"
    case 503 => "Service Unavailable"
    case 504 => "Gateway Timeout"
    case 505 => "HTTP Version Not Supported"
    case 506 => "Variant Also Negotiates"
    case 507 => "Insufficient Storage"
    case 508 => "Loop Detected"
    case 510 => "Not Extended"
    case 511 => "Network Authentication Required"
    case _ => ""
  }

  /** The reason the status line carries: the response's own unless it is null or blank, else the standard phrase. */
  function Reason(r: CoreResponse): (reason: string)
    ensures !IsNullOrWhiteSpace(r.reasonPhrase) ==> reason == r.reasonPhrase.value
    ensures IsNullOrWhiteSpace(r.reasonPhrase) ==> (reason != "" <==> KnownStatus(r.status))
  {
    if IsNullOrWhiteSpace(r.reasonPhrase) then ReasonPhrase(r.status) else r.reasonPhrase.value
  }

  // ---------------------------------------------------------------------
  // The head WriteResponse writes
  // ---------------------------------------------------------------------

  /** The handler framed the body itself, with a Content-Length or a Transfer-Encoding header. */
  predicate Framed(r: CoreResponse)
  {
    HasHeader(r.headers, "Content-Length") || HasHeader(r.headers, "Transfer-Encoding")
  }

  /** KeepAlive once the response is written: a body of unknown length the handler did not frame ends it. */
  predicate StillAlive(keepAlive: bool, r: CoreResponse, body: Body)
  {
    keepAlive && (Framed(r) || !body.Unseekable?)
  }

  /** The Content-Length the context adds when the handler did not frame the body: 0 without a body, the length of a seekable one. */
  function LengthLine(r: CoreResponse, body: Body): seq<Header>
  {
    if Framed(r) then []
    else match body
      case NoBody => [("Content-Length", "0")]
      case Seekable(d) => [("Content-Length", IntText(|d|))]
      case Unseekable(_) => []
  }

  /** Connection, with Keep-Alive when it stays open, unless the handler set Connection. */
  function ConnectionLines(r: CoreResponse, alive: bool, timeout: int): seq<Header>
  {
    if HasHeader(r.headers, "Connection") then []
    else if alive then [("Connection", "keep-alive"), ("Keep-Alive", "timeout=" + IntText(timeout) + ", max=100")]
    else [("Connection", "close")]
  }

  /** Date and Server, each unless the handler set it. */
  function ServedLines(r: CoreResponse, date: string): seq<Header>
  {
    (if HasHeader(r.headers, "Date") then [] else [("Date", date)])
    + (if HasHeader(r.headers, "Server") then [] else [("Server", "WRM/1.0")])
  }

  /** The headers of the head: the handler's in order, then the ones the context adds. */
  function ResponseLines(r: CoreResponse, body: Body, keepAlive: bool, timeout: int, date: string): seq<Header>
  {
    r.headers + (LengthLine(r, body) + ConnectionLines(r, StillAlive(keepAlive, r, body), timeout) + ServedLines(r, date))
  }

  /** `{Version} {StatusCode} {reason}`. */
  function ResponseStatusLine(request: CoreRequest, r: CoreResponse): string
  {
    request.version + " " + IntText(r.status) + " " + Reason(r)
  }

  /** The request's method is HEAD, ignoring case. */
  predicate IsHeadRequest(request: CoreRequest)
  {
    EqualsIgnoreCase(request.verb, "HEAD")
  }

  /** What WriteResponse writes: the head in ASCII, then the body unless the request is a HEAD. */
  function ResponseBytes(request: CoreRequest, keepAlive: bool, timeout: int, r: CoreResponse, body: Body, date: string): Bytes
  {
    AsciiBytes(HeadText(ResponseStatusLine(request, r), ResponseLines(r, body, keepAlive, timeout, date)))
    + (if IsHeadRequest(request) then [] else Content(body))
  }

  /** What MakeTunel writes: `{Version} {StatusCode} Connection Established`, the handler's headers, Date and Server. */
  function TunnelBytes(request: CoreRequest, r: CoreResponse, date: string): Bytes
  {
    AsciiBytes(HeadText(request.version + " " + IntText(r.status) + " Connection Established", r.headers + ServedLines(r, date)))
  }

  // ---------------------------------------------------------------------
  // The context
  // ---------------------------------------------------------------------

  class Http1Context {
    /** KeepAlive: whether the step may read another request after this one. */
    var keepAlive: bool
    const keepAliveTimeout: int
    /** Connection. */
    const connection: Channel
    /** Request. */
    const request: CoreRequest

    constructor (keepAlive: bool, keepAliveTimeout: int, connection: Channel, request: CoreRequest)
      ensures this.keepAlive == keepAlive && this.keepAliveTimeout == keepAliveTimeout
      ensures this.connection == connection && this.request == request
    {
      this.keepAlive := keepAlive;
      this.keepAliveTimeout := keepAliveTimeout;
      this.connection := connection;
      this.request := request;
    }

    /**
     * WriteResponse: the status line with the response's reason or the
     * standard one, the handler's headers, the framing and connection
     * headers the handler left out, the head written, then the body unless
     * the request is a HEAD. A body of unknown length that the handler did
     * not frame ends keep-alive before the Connection header is chosen.
     */
    method WriteResponse(response: CoreResponse, body: Body, date: string)
      requires connection.Valid()
      modifies this`keepAlive, connection`output
      ensures keepAlive == StillAlive(old(keepAlive), response, body)
      ensures connection.output == old(connection.output) + ResponseBytes(request, old(keepAlive), keepAliveTimeout, response, body, date)
    {
      var reason := Reason(response);
      var first := request.version + " " + IntText(response.status) + " " + reason;
      var lines, hasLength, hasConnection, hasDate, hasServer, hasTransferEncoding := ScanHeaders(response.headers);
      var isHead := EqualsIgnoreCase(request.verb, "HEAD");
      var alive, added := AddedLines(response, body, keepAlive, keepAliveTimeout, date,
                                     hasLength, hasConnection, hasDate, hasServer, hasTransferEncoding);
      keepAlive := alive;
      var head := Assemble(first, response.headers, lines, added);
      Send(connection, AsciiBytes(head), body, isHead);
    }

    /**
     * MakeTunel: the "Connection Established" head written, the connection
     * handed back for reading and writing, and keep-alive ended.
     */
    method MakeTunel(response: CoreResponse, date: string) returns (read: Channel, write: Channel)
      requires connection.Valid()
      modifies this`keepAlive, connection`output
      ensures read == connection && write == connection && !keepAlive
      ensures connection.output == old(connection.output) + TunnelBytes(request, response, date)
    {
      var first := request.version + " " + IntText(response.status) + " Connection Established";
      var lines, _, _, hasDate, hasServer, _ := ScanHeaders(response.headers);
      var served: seq<Header> := [];
      if !hasDate {
        served := [("Date", date)];
      }
      if !hasServer {
        served := served + [("Server", "WRM/1.0")];
      }
      assert served == ServedLines(response, date);
      var head := Assemble(first, response.headers, lines, served);
      connection.Write(AsciiBytes(head));
      read, write := connection, connection;
      keepAlive := false;
    }
  }

  /**
   * The headers WriteResponse adds, given which names the handler set, and
   * KeepAlive after them: the framing header unless the handler framed the
   * body (a body of unknown length ends keep-alive instead), Connection and
   * Keep-Alive, Date and Server.
   */
  method AddedLines(r: CoreResponse, body: Body, keepAlive: bool, timeout: int, date: string,
                    hasLength: bool, hasConnection: bool, hasDate: bool, hasServer: bool, hasTransferEncoding: bool)
    returns (alive: bool, added: seq<Header>)
    requires hasLength == HasHeader(r.headers, "Content-Length") && hasConnection == HasHeader(r.headers, "Connection")
    requires hasDate == HasHeader(r.headers, "Date") && hasServer == HasHeader(r.headers, "Server")
    requires hasTransferEncoding == HasHeader(r.headers, "Transfer-Encoding")
    ensures alive == StillAlive(keepAlive, r, body)
    ensures r.headers + added == ResponseLines(r, body, keepAlive, timeout, date)
  {
    var length;
    alive, length := Framing(r, body, keepAlive, hasLength, hasTransferEncoding);
    var conn: seq<Header> := [];
    if !hasConnection {
      conn := [("Connection", if alive then "keep-alive" else "close")];
      if alive {
        conn := conn + [("Keep-Alive", "timeout=" + IntText(timeout) + ", max=100")];
      }
    }
    var served: seq<Header> := [];
    if !hasDate {
      served := [("Date", date)];
    }
    if !hasServer {
      served := served + [("Server", "WRM/1.0")];
    }
    assert conn == ConnectionLines(r, alive, timeout) && served == ServedLines(r, date);
    added := length + conn + served;
  }

  /** The framing part of AddedLines: the Content-Length the context adds, and KeepAlive after it. */
  method Framing(r: CoreResponse, body: Body, keepAlive: bool, hasLength: bool, hasTransferEncoding: bool)
    returns (alive: bool, length: seq<Header>)
    requires hasLength == HasHeader(r.headers, "Content-Length") && hasTransferEncoding == HasHeader(r.headers, "Transfer-Encoding")
    ensures alive == StillAlive(keepAlive, r, body) && length == LengthLine(r, body)
  {
    alive := keepAlive;
    length := [];
    if !hasLength && !hasTransferEncoding {
      match body {
        case NoBody =>
          length := [("Content-Length", "0")];
        case Seekable(d) =>
          length := [("Content-Length", IntText(|d|))];
        case Unseekable(_) =>
          alive := false;
      }
    }
  }

  /** The head written to the connection, then the body unless the request is a HEAD. */
  method Send(connection: Channel, head: Bytes, body: Body, isHead: bool)
    requires connection.Valid()
    modifies connection`output
    ensures connection.output == old(connection.output) + (head + (if isHead then [] else Content(body)))
  {
    ghost var before := connection.output;
    connection.Write(head);
    if !isHead && !body.NoBody? {
      connection.Write(body.data);
      ConcatAssoc(before, head, body.data);
    } else {
      assert head + [] == head;
    }
  }

  /** The header loop of WriteResponse: the handler's header lines in order, and which of the five names it set. */
  method ScanHeaders(hs: seq<Header>)
    returns (text: string, hasLength: bool, hasConnection: bool, hasDate: bool, hasServer: bool, hasTransferEncoding: bool)
    ensures text == HeaderLines(hs)
    ensures hasLength == HasHeader(hs, "Content-Length") && hasConnection == HasHeader(hs, "Connection")
    ensures hasDate == HasHeader(hs, "Date") && hasServer == HasHeader(hs, "Server")
    ensures hasTransferEncoding == HasHeader(hs, "Transfer-Encoding")
  {
    text := "";
    hasLength, hasConnection, hasDate, hasServer, hasTransferEncoding := false, false, false, false, false;
    var i := 0;
    while i < |hs|
      invariant 0 <= i <= |hs| && text == HeaderLines(hs[..i])
      invariant hasLength == HasHeader(hs[..i], "Content-Length") && hasConnection == HasHeader(hs[..i], "Connection")
      invariant hasDate == HasHeader(hs[..i], "Date") && hasServer == HasHeader(hs[..i], "Server")
      invariant hasTransferEncoding == HasHeader(hs[..i], "Transfer-Encoding")
    {
      var h := hs[i];
      assert hs[..i + 1] == hs[..i] + [h];
      SeenHeader(hs[..i], h);
      if EqualsIgnoreCase(h.0, "Content-Length") {
        hasLength := true;
      }
      if EqualsIgnoreCase(h.0, "Connection") {
        hasConnection := true;
      }
      if EqualsIgnoreCase(h.0, "Date") {
        hasDate := true;
      }
      if EqualsIgnoreCase(h.0, "Server") {
        hasServer := true;
      }
      if EqualsIgnoreCase(h.0, "Transfer-Encoding") {
        hasTransferEncoding := true;
      }
      HeaderLinesSnoc(hs[..i], h);
      text := text + HeaderText(h) + "\r\n";
      i := i + 1;
    }
    assert hs[..i] == hs;
  }

  // ---------------------------------------------------------------------
  // What a written head tells the client
  // ---------------------------------------------------------------------

  /** The phrases the WRM.HTTP.HTTP1 step writes for 200, 400, 408 and 500 are the standard ones. */
  lemma StandardReasons()
    ensures ReasonPhrase(200) == "OK" && ReasonPhrase(400) == "Bad Request"
    ensures ReasonPhrase(408) == "Request Timeout" && ReasonPhrase(500) == "Internal Server Error"
  {
  }

  /**
   * The Content-Length and Connection a client finds first in the head: the
   * handler's own when it set them; otherwise the body's length (0 without
   * a body, none for a body of unknown length or one the handler framed
   * with Transfer-Encoding), and "keep-alive" exactly when KeepAlive
   * survives the response.
   */
  lemma WrittenFraming(r: CoreResponse, body: Body, keepAlive: bool, timeout: int, date: string)
    ensures var hs := ResponseLines(r, body, keepAlive, timeout, date);
            && GetHeader(hs, "Content-Length") ==
                 (if HasHeader(r.headers, "Content-Length") then GetHeader(r.headers, "Content-Length")
                  else if HasHeader(r.headers, "Transfer-Encoding") then None
                  else match body
                    case NoBody => Some("0")
                    case Seekable(d) => Some(IntText(|d|))
                    case Unseekable(_) => None)
            && GetHeader(hs, "Connection") ==
                 (if HasHeader(r.headers, "Connection") then GetHeader(r.headers, "Connection")
                  else Some(if StillAlive(keepAlive, r, body) then "keep-alive" else "close"))
  {
    var alive := StillAlive(keepAlive, r, body);
    var l, c, d := LengthLine(r, body), ConnectionLines(r, alive, timeout), ServedLines(r, date);
    LengthLookup(r, body);
    ConnectionLookup(r, alive, timeout);
    ServedLookup(r, date);
    assert l + c + d == l + (c + d);
    GetHeaderAppend(c, d, "Content-Length");
    GetHeaderAppend(c, d, "Connection");
    GetHeaderAppend(l, c + d, "Content-Length");
    GetHeaderAppend(l, c + d, "Connection");
    GetHeaderAppend(r.headers, l + c + d, "Content-Length");
    GetHeaderAppend(r.headers, l + c + d, "Connection");
  }

  /**
   * For a request other than HEAD whose body the handler left unframed and
   * whose length is known, the Content-Length the head announces is the
   * number of bytes written after it.
   */
  lemma LengthAnnounced(request: CoreRequest, keepAlive: bool, timeout: int, r: CoreResponse, body: Body, date: string)
    requires !Framed(r) && !body.Unseekable? && !IsHeadRequest(request)
    ensures var head := AsciiBytes(HeadText(ResponseStatusLine(request, r), ResponseLines(r, body, keepAlive, timeout, date)));
            && ResponseBytes(request, keepAlive, timeout, r, body, date)[|head|..] == Content(body)
            && GetHeader(ResponseLines(r, body, keepAlive, timeout, date), "Content-Length") == Some(IntText(|Content(body)|))
  {
    var head := AsciiBytes(HeadText(ResponseStatusLine(request, r), ResponseLines(r, body, keepAlive, timeout, date)));
    assert (head + Content(body))[|head|..] == Content(body);
    WrittenFraming(r, body, keepAlive, timeout, date);
    assert IntText(0) == "0";
  }

  /** The tunnel's head carries the handler's Date and Server, or the context's, and no framing or Connection header of its own. */
  lemma TunnelHeaders(r: CoreResponse, date: string)
    ensures var hs := r.headers + ServedLines(r, date);
            && GetHeader(hs, "Date") == (if HasHeader(r.headers, "Date") then GetHeader(r.headers, "Date") else Some(date))
            && GetHeader(hs, "Server") == (if HasHeader(r.headers, "Server") then GetHeader(r.headers, "Server") else Some("WRM/1.0"))
            && GetHeader(hs, "Content-Length") == GetHeader(r.headers, "Content-Length")
            && GetHeader(hs, "Connection") == GetHeader(r.headers, "Connection")
  {
    ServedLookup(r, date);
    GetHeaderAppend(r.headers, ServedLines(r, date), "Date");
    GetHeaderAppend(r.headers, ServedLines(r, date), "Server");
    GetHeaderAppend(r.headers, ServedLines(r, date), "Content-Length");
    GetHeaderAppend(r.headers, ServedLines(r, date), "Connection");
  }

  lemma LengthLookup(r: CoreResponse, body: Body)
    ensures GetHeader(LengthLine(r, body), "Content-Length") ==
              if Framed(r) then None
              else match body
                case NoBody => Some("0")
                case Seekable(d) => Some(IntText(|d|))
                case Unseekable(_) => None
    ensures GetHeader(LengthLine(r, body), "Connection").None?
  {
    NamesDiffer();
    if LengthLine(r, body) != [] {
      var h := LengthLine(r, body)[0];
      assert LengthLine(r, body) == [h] && h.0 == "Content-Length";
      GetHeaderSingle(h, "Content-Length");
      GetHeaderSingle(h, "Connection");
    }
  }

  lemma ConnectionLookup(r: CoreResponse, alive: bool, timeout: int)
    ensures GetHeader(ConnectionLines(r, alive, timeout), "Connection") ==
              if HasHeader(r.headers, "Connection") then None else Some(if alive then "keep-alive" else "close")
    ensures GetHeader(ConnectionLines(r, alive, timeout), "Content-Length").None?
  {
    NamesDiffer();
    var hs := ConnectionLines(r, alive, timeout);
    if hs != [] {
      var c := hs[0];
      assert c.0 == "Connection";
      GetHeaderSingle(c, "Content-Length");
      GetHeaderSingle(c, "Connection");
      if alive {
        var k := hs[1];
        assert hs == [c] + [k] && k.0 == "Keep-Alive";
        GetHeaderSingle(k, "Content-Length");
        GetHeaderAppend([c], [k], "Content-Length");
        GetHeaderAppend([c], [k], "Connection");
      } else {
        assert hs == [c];
      }
    }
  }

  lemma ServedLookup(r: CoreResponse, date: string)
    ensures GetHeader(ServedLines(r, date), "Date") == if HasHeader(r.headers, "Date") then None else Some(date)
    ensures GetHeader(ServedLines(r, date), "Server") == if HasHeader(r.headers, "Server") then None else Some("WRM/1.0")
    ensures GetHeader(ServedLines(r, date), "Content-Length").None? && GetHeader(ServedLines(r, date), "Connection").None?
  {
    NamesDiffer();
    var a: seq<Header> := if HasHeader(r.headers, "Date") then [] else [("Date", date)];
    var b: seq<Header> := if HasHeader(r.headers, "Server") then [] else [("Server", "WRM/1.0")];
    assert ServedLines(r, date) == a + b;
    GetHeaderSingle(("Date", date), "Date");
    GetHeaderSingle(("Date", date), "Server");
    GetHeaderSingle(("Date", date), "Content-Length");
    GetHeaderSingle(("Date", date), "Connection");
    GetHeaderSingle(("Server", "WRM/1.0"), "Date");
    GetHeaderSingle(("Server", "WRM/1.0"), "Server");
    GetHeaderSingle(("Server", "WRM/1.0"), "Content-Length");
    GetHeaderSingle(("Server", "WRM/1.0"), "Connection");
    GetHeaderAppend(a, b, "Date");
    GetHeaderAppend(a, b, "Server");
    GetHeaderAppend(a, b, "Content-Length");
    GetHeaderAppend(a, b, "Connection");
  }
}
