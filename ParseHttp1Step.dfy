/**
 * ParseHttp1Step (WRM/WRM.Core): on a connection classified as HTTP/1 whose
 * stream is among the context's items, it serves requests one after
 * another while the connection is kept alive. Each request head is read
 * with the stream line reader, the request and an Http1Context around it
 * stored under the HttpContext item for the next step, and the body
 * drained once the next step is done. Nothing is caught: a malformed head,
 * a head the stream ends inside of, and a failing next step all end the
 * step with their exception.
 */
module ParseHttp1Step {
  import opened Common
  import opened Strings
  import opened Channel
  import opened LineReader
  import opened Http1Syntax
  import opened Http1Head
  import opened RequestHeaders
  import opened HttpRequestBody
  import opened HttpRequestBodyStream
  import opened Http1Context
  import opened NetworkContext
  import opened Http1ParsingStep

  /** MaxRequestLineSize. */
  const MaxRequestLineSize: nat := 8192

  /** DefaultKeepAliveTimeout, in seconds: what every Http1Context is built with. */
  const DefaultKeepAliveTimeout: int := 5

  // ---------------------------------------------------------------------
  // Reading a request head
  // ---------------------------------------------------------------------

  /**
   * The request head at position `p`: the request line, then the header
   * section, whose size count starts at zero for the headers alone and
   * whose lines go through HttpRequestHeaders.Add (which refuses a bad
   * Cookie header).
   */
  function CoreHead(input: Bytes, p: nat): HeadRead
    requires p <= |input|
  {
    match LineAt(input, p)
    case None => Closed
    case Some(l) => CoreAfterLine(AsciiText(l.kept), l.used, HeaderAt(input, p + l.used, 0, true))
  }

  /**
   * The request once its line, `text` in `u` bytes, has been read: a blank
   * line ends the loop; a line that does not split into three parts, or
   * one longer than MaxRequestLineSize, throws.
   */
  function CoreAfterLine(text: string, u: nat, section: HeaderRead): HeadRead
  {
    if IsNullOrWhiteSpace(Some(text)) then Closed
    else
      match ParseRequestLine(text)
      case None => Malformed
      case Some(line) => if |text| > MaxRequestLineSize then Malformed else HeadOf(line, u, section)
  }

  /** The bytes a head took lie within the input. */
  lemma CoreHeadUsed(input: Bytes, p: nat)
    requires p <= |input|
    ensures CoreHead(input, p).Head? ==> 1 <= CoreHead(input, p).used <= |input| - p
  {
    match LineAt(input, p)
    case None =>
    case Some(l) =>
      HeaderAtUsed(input, p + l.used, 0, true);
  }

  /** The request head, read with the line reader and the header loop. */
  method ReadCoreHead(stream: Channel) returns (h: HeadRead)
    requires stream.Valid()
    modifies stream`pos
    ensures stream.Valid() && old(stream.pos) <= stream.pos
    ensures h == CoreHead(stream.input, old(stream.pos))
    ensures h.Head? ==> 1 <= h.used && stream.pos == old(stream.pos) + h.used
  {
    var at := stream.pos;
    var text := ReadLineAt(stream);
    if IsNullOrWhiteSpace(text) {
      return Closed;
    }
    var u := stream.pos - at;
    var line := ParseRequestLine(text.value);
    if line.None? {
      return Malformed;
    }
    if |text.value| > MaxRequestLineSize {
      return Malformed;
    }
    var section := ReadHeaderSection(stream, 0, true);
    h := HeadOf(line.value, u, section);
  }

  // ---------------------------------------------------------------------
  // The request, its context and the next step
  // ---------------------------------------------------------------------

  /** HttpRequest as the step builds it: IsSsl, the request line's three parts and the headers in order. */
  function RequestOf(isSsl: bool, h: HeadRead): CoreRequest
    requires h.Head?
  {
    CoreRequest(isSsl, h.line.verb, h.line.path, h.line.version, h.headers)
  }

  /** The keep-alive decision on the request's version and its Connection header. */
  function RequestKeepAlive(request: CoreRequest): bool
  {
    KeepAliveOf(request.version, LastExact(request.headers, "Connection"))
  }

  /** Whether the body stream reads chunks, and the Content-Length it starts with, from the headers' properties. */
  function CoreBodyMode(hs: seq<Header>): (bool, int)
  {
    var chunked := IsChunked(LastExact(hs, "Transfer-Encoding"));
    (chunked, InitialLength(chunked, LastExact(hs, "Content-Length")))
  }

  /**
   * What the next step does with the HttpContext item: writes a response
   * and its body through WriteResponse, opens a tunnel through MakeTunel,
   * writes nothing, or throws.
   */
  datatype Action = Responds(response: CoreResponse, body: Body) | Tunnels(response: CoreResponse) | Silent | Fails

  /** The next step, as the action it takes for each request. */
  type CoreHandler = CoreRequest -> Action

  /**
   * The next step on a context built with `keepAlive`: the bytes written,
   * the context's KeepAlive afterwards, and whether it threw.
   */
  function Turn(request: CoreRequest, keepAlive: bool, action: Action, date: string): (r: (Bytes, bool, bool))
    ensures r.2 <==> action.Fails?
    ensures r.1 ==> keepAlive
  {
    match action
    case Responds(response, body) =>
      (ResponseBytes(request, keepAlive, DefaultKeepAliveTimeout, response, body, date), StillAlive(keepAlive, response, body), false)
    case Tunnels(response) => (TunnelBytes(request, response, date), false, false)
    case Silent => ([], keepAlive, false)
    case Fails => ([], keepAlive, true)
  }

  /** `await next(context)`, where the next step takes `action` on the context `hc`. */
  method RunNext(hc: Http1Context, action: Action, date: string) returns (failed: bool, ghost written: Bytes)
    requires hc.connection.Valid() && hc.keepAliveTimeout == DefaultKeepAliveTimeout
    modifies hc`keepAlive, hc.connection`output
    ensures hc.connection.output == old(hc.connection.output) + written
    ensures (written, hc.keepAlive, failed) == Turn(hc.request, old(hc.keepAlive), action, date)
  {
    match action {
      case Responds(response, body) =>
        hc.WriteResponse(response, body, date);
        return false, ResponseBytes(hc.request, old(hc.keepAlive), hc.keepAliveTimeout, response, body, date);
      case Tunnels(response) =>
        var _, _ := hc.MakeTunel(response, date);
        return false, TunnelBytes(hc.request, response, date);
      case Silent =>
        assert hc.connection.output == old(hc.connection.output) + [];
        return false, [];
      case Fails =>
        assert hc.connection.output == old(hc.connection.output) + [];
        return true, [];
    }
  }

  // ---------------------------------------------------------------------
  // The loop
  // ---------------------------------------------------------------------

  /** What the step leaves: the bytes it wrote, the times it called the next step, and whether it threw. */
  datatype CoreServed = CoreServed(output: Bytes, requests: nat, failed: bool)

  /** `written` and `n` next-step calls, followed by what the loop does later. */
  function Then(written: Bytes, n: nat, later: CoreServed): (r: CoreServed)
    ensures r.output == written + later.output && r.requests == n + later.requests && r.failed == later.failed
  {
    CoreServed(written + later.output, n + later.requests, later.failed)
  }

  /** The loop from position `p`; `date` stands for every Date header it writes. */
  function ServeCore(input: Bytes, p: nat, isSsl: bool, handler: CoreHandler, date: string): CoreServed
    requires p <= |input|
    decreases |input| - p, 2
  {
    CoreHeadUsed(input, p);
    ServeCoreAfter(input, p, CoreHead(input, p), isSsl, handler, date)
  }

  /**
   * The loop once the head at `p` was read as `h`: no request ends it
   * quietly, any other head that is not a request throws; a request gets a
   * context built with the loop's keep-alive flag (true on every turn) and
   * is handed to the next step.
   */
  function ServeCoreAfter(input: Bytes, p: nat, h: HeadRead, isSsl: bool, handler: CoreHandler, date: string): CoreServed
    requires p <= |input| && (h.Head? ==> 1 <= h.used <= |input| - p)
    decreases |input| - p, 1
  {
    if !h.Head? then CoreServed([], 0, !h.Closed?)
    else
      var request := RequestOf(isSsl, h);
      CoreAfterTurn(input, p, h, isSsl, handler, date, Turn(request, true, handler(request), date))
  }

  /**
   * The loop once the next step took its turn `t` on the request `h`:
   * unless it threw, the body is drained and the loop goes on after it
   * when both the request and the context keep the connection alive.
   */
  function CoreAfterTurn(input: Bytes, p: nat, h: HeadRead, isSsl: bool, handler: CoreHandler, date: string,
                         t: (Bytes, bool, bool)): CoreServed
    requires h.Head? && 1 <= h.used <= |input| - p
    decreases |input| - p, 0
  {
    if t.2 then CoreServed(t.0, 1, true)
    else
      var q := p + h.used;
      var mode := CoreBodyMode(h.headers);
      CoreContinue(input, q + BodyDrain(mode.0, mode.1, input[q..]).0, t.0, RequestKeepAlive(RequestOf(isSsl, h)) && t.1, isSsl, handler, date)
  }

  /** After a request whose turn wrote `written`: the loop goes on at `q` when `go`. */
  function CoreContinue(input: Bytes, q: nat, written: Bytes, go: bool, isSsl: bool, handler: CoreHandler, date: string): CoreServed
    requires q <= |input|
    decreases |input| - q, 3
  {
    if go then Then(written, 1, ServeCore(input, q, isSsl, handler, date)) else CoreServed(written, 1, false)
  }

  /** The loop where the head at `p` was read as `h`. */
  lemma ServeCoreIs(input: Bytes, p: nat, h: HeadRead, isSsl: bool, handler: CoreHandler, date: string)
    requires p <= |input| && h == CoreHead(input, p)
    ensures h.Head? ==> 1 <= h.used <= |input| - p
    ensures ServeCore(input, p, isSsl, handler, date) == ServeCoreAfter(input, p, h, isSsl, handler, date)
  {
    CoreHeadUsed(input, p);
  }

  /**
   * The loop after a request whose turn came back as `t` and, unless it
   * threw, whose body drain took `n` bytes.
   */
  lemma CoreServeHead(input: Bytes, p: nat, h: HeadRead, isSsl: bool, handler: CoreHandler, date: string,
                      t: (Bytes, bool, bool), n: nat)
    requires h.Head? && 1 <= h.used <= |input| - p
    requires t == Turn(RequestOf(isSsl, h), true, handler(RequestOf(isSsl, h)), date)
    requires !t.2 ==> n == BodyDrain(CoreBodyMode(h.headers).0, CoreBodyMode(h.headers).1, input[p + h.used..]).0
    ensures !t.2 ==> p + h.used + n <= |input|
    ensures t.2 ==> ServeCoreAfter(input, p, h, isSsl, handler, date) == CoreServed(t.0, 1, true)
    ensures !t.2 ==> ServeCoreAfter(input, p, h, isSsl, handler, date)
                     == CoreContinue(input, p + h.used + n, t.0, RequestKeepAlive(RequestOf(isSsl, h)) && t.1, isSsl, handler, date)
  {
    var request := RequestOf(isSsl, h);
    assert ServeCoreAfter(input, p, h, isSsl, handler, date) == CoreAfterTurn(input, p, h, isSsl, handler, date, t);
  }

  /** CoreContinue, spelled out. */
  lemma CoreContinueIs(input: Bytes, q: nat, written: Bytes, go: bool, isSsl: bool, handler: CoreHandler, date: string)
    requires q <= |input|
    ensures go ==> CoreContinue(input, q, written, go, isSsl, handler, date) == Then(written, 1, ServeCore(input, q, isSsl, handler, date))
    ensures !go ==> CoreContinue(input, q, written, go, isSsl, handler, date) == CoreServed(written, 1, false)
  {
  }

  lemma ThenThen(done: Bytes, c: nat, w: Bytes, later: CoreServed)
    ensures Then(done, c, Then(w, 1, later)) == Then(done + w, c + 1, later)
  {
    ConcatAssoc(done, w, later.output);
  }

  /**
   * A request read: its body stream and its context built, the context
   * stored under the HttpContext item, the next step run, and, unless it
   * threw, the keep-alive decision taken and the body drained.
   */
  method AnswerCoreHead(ctx: NetworkContext, stream: Channel, h: HeadRead, isSsl: bool, handler: CoreHandler, date: string, ghost at: nat)
    returns (go: bool, failed: bool, ghost written: Bytes, hc: Http1Context)
    requires stream.Valid() && h.Head? && 1 <= h.used && at + h.used == stream.pos
    modifies stream`pos, stream`output, ctx`items
    ensures stream.Valid() && stream.input == old(stream.input) && old(stream.pos) <= stream.pos
    ensures stream.output == old(stream.output) + written
    ensures ctx.items == old(ctx.items)[HttpContextKey := Http1ContextItem(hc)]
    ensures failed ==> !go && ServeCoreAfter(stream.input, at, h, isSsl, handler, date) == CoreServed(written, 1, true)
    ensures !failed ==> ServeCoreAfter(stream.input, at, h, isSsl, handler, date)
                        == CoreContinue(stream.input, stream.pos, written, go, isSsl, handler, date)
  {
    var request := RequestOf(isSsl, h);
    var body := new HttpRequestBodyStream(stream, LastExact(h.headers, "Content-Length"), LastExact(h.headers, "Transfer-Encoding"));
    hc := new Http1Context(true, DefaultKeepAliveTimeout, stream, request);
    var keepAlive := RequestKeepAlive(request);
    ctx.items := ctx.items[HttpContextKey := Http1ContextItem(hc)];
    failed, written := RunNext(hc, handler(request), date);
    ghost var t := (written, hc.keepAlive, failed);
    if failed {
      CoreServeHead(stream.input, at, h, isSsl, handler, date, t, 0);
      return false, failed, written, hc;
    }
    go := keepAlive && hc.keepAlive;
    ghost var n := DisposeBody(body, h.headers);
    CoreServeGoesOn(stream.input, at, h, isSsl, handler, date, t, n, stream.pos, written, go);
  }

  /** `Request.Body.DisposeAsync()` on a body stream nothing has read from: the drain of the body. */
  method DisposeBody(body: HttpRequestBodyStream, ghost hs: seq<Header>) returns (ghost n: nat)
    requires body.base.Valid() && !body.disposed && !body.endOfChunks && body.consumed == 0
    requires body.chunked == CoreBodyMode(hs).0 && body.remaining == CoreBodyMode(hs).1 && body.length == body.remaining
    modifies body, body.base`pos
    ensures body.base.Valid() && body.base.pos == old(body.base.pos) + n
    ensures n == BodyDrain(CoreBodyMode(hs).0, CoreBodyMode(hs).1, old(body.base.Remaining())).0
  {
    body.Dispose(true);
    n := body.base.pos - old(body.base.pos);
  }

  /**
   * One turn of the loop: the head, then either the end of the loop (no
   * request, or the exception of a head that is not one) or the request
   * answered. `served` says whether the next step was called.
   */
  method ServeCoreRequest(ctx: NetworkContext, stream: Channel, isSsl: bool, handler: CoreHandler, date: string)
    returns (go: bool, failed: bool, served: bool, ghost written: Bytes, ghost item: Option<Item>)
    requires stream.Valid()
    modifies stream`pos, stream`output, ctx`items
    ensures stream.Valid() && stream.input == old(stream.input) && old(stream.pos) <= stream.pos
    ensures stream.output == old(stream.output) + written
    ensures ctx.items == Handed(old(ctx.items), item) && (item.Some? <==> served) && Handing(item)
    ensures go ==> old(stream.pos) < stream.pos && served && !failed
    ensures go ==> ServeCore(stream.input, old(stream.pos), isSsl, handler, date)
                   == Then(written, 1, ServeCore(stream.input, stream.pos, isSsl, handler, date))
    ensures !go ==> ServeCore(stream.input, old(stream.pos), isSsl, handler, date)
                    == CoreServed(written, if served then 1 else 0, failed)
  {
    ghost var at := stream.pos;
    var h := ReadCoreHead(stream);
    ServeCoreIs(stream.input, at, h, isSsl, handler, date);
    if !h.Head? {
      assert stream.output == old(stream.output) + [];
      return false, !h.Closed?, false, [], None;
    }
    var hc;
    go, failed, written, hc := AnswerCoreHead(ctx, stream, h, isSsl, handler, date, at);
    served, item := true, Some(Http1ContextItem(hc));
    if !failed {
      CoreContinueIs(stream.input, stream.pos, written, go, isSsl, handler, date);
    }
  }

  /** The items once `item`, if any, was stored under the HttpContext key. */
  function Handed(items: Items, item: Option<Item>): Items
  {
    if item.Some? then items[HttpContextKey := item.value] else items
  }

  /** An item the step hands on is an Http1Context. */
  predicate Handing(item: Option<Item>)
  {
    item.Some? ==> item.value.Http1ContextItem?
  }

  lemma HandedHanded(items: Items, a: Option<Item>, b: Option<Item>)
    ensures Handed(Handed(items, a), b) == Handed(items, if b.Some? then b else a)
  {
    if a.Some? && b.Some? {
      assert items[HttpContextKey := a.value][HttpContextKey := b.value] == items[HttpContextKey := b.value];
    }
  }

  /** `objectIsSsl is true`. */
  predicate IsSslOf(items: Items)
  {
    IsSslKey in items && items[IsSslKey] == FlagItem(true)
  }

  /**
   * InvokeAsync: a connection not classified as HTTP/1, or without a
   * stream item, goes to the next step once; otherwise the loop serves
   * requests while the connection is kept alive. `nexts` counts the calls
   * of the next step and `failed` says whether the step ends with an
   * exception.
   */
  method InvokeAsync(ctx: NetworkContext, handler: CoreHandler, date: string) returns (nexts: nat, failed: bool)
    requires StreamOf(ctx.items).Some? ==> StreamOf(ctx.items).value.Valid()
    modifies ctx`items, Streams(ctx.items)
    ensures !(HasProtocol(old(ctx.items), HttpProtocolKey, Http1) && StreamOf(old(ctx.items)).Some?) ==>
              nexts == 1 && !failed && ctx.items == old(ctx.items)
              && (StreamOf(old(ctx.items)).Some? ==> unchanged(StreamOf(old(ctx.items)).value))
    ensures HasProtocol(old(ctx.items), HttpProtocolKey, Http1) && StreamOf(old(ctx.items)).Some? ==>
              var stream := StreamOf(old(ctx.items)).value;
              && stream.Valid() && stream.input == old(stream.input) && old(stream.pos) <= |stream.input|
              && var s := ServeCore(stream.input, old(stream.pos), IsSslOf(old(ctx.items)), handler, date);
              && stream.output == old(stream.output) + s.output
              && nexts == s.requests && failed == s.failed
              && (s.requests == 0 ==> ctx.items == old(ctx.items))
              && (s.requests > 0 ==> HttpContextKey in ctx.items && ctx.items[HttpContextKey].Http1ContextItem?
                                     && ctx.items == old(ctx.items)[HttpContextKey := ctx.items[HttpContextKey]])
  {
    var found := StreamOf(ctx.items);
    if !HasProtocol(ctx.items, HttpProtocolKey, Http1) || found.None? {
      return 1, false;
    }
    ghost var item;
    nexts, failed, item := ServeConnection(ctx, found.value, IsSslOf(ctx.items), handler, date);
  }

  /** The loop of InvokeAsync on the stream `stream`; `item` is the last context it handed on. */
  method ServeConnection(ctx: NetworkContext, stream: Channel, isSsl: bool, handler: CoreHandler, date: string)
    returns (nexts: nat, failed: bool, ghost item: Option<Item>)
    requires stream.Valid()
    modifies ctx`items, stream`pos, stream`output
    ensures stream.Valid() && stream.input == old(stream.input)
    ensures var s := ServeCore(stream.input, old(stream.pos), isSsl, handler, date);
            && stream.output == old(stream.output) + s.output
            && nexts == s.requests && failed == s.failed
            && (item.Some? <==> s.requests > 0)
    ensures ctx.items == Handed(old(ctx.items), item) && Handing(item)
  {
    ghost var input := stream.input;
    ghost var out0 := stream.output;
    ghost var items0 := ctx.items;
    ghost var whole := ServeCore(input, stream.pos, isSsl, handler, date);
    ghost var done: Bytes := [];
    item := None;
    var keepAlive := true;
    var requestCount := 0;
    failed := false;
    assert out0 + [] == out0;
    while keepAlive
      invariant stream.Valid() && stream.input == input
      invariant stream.output == out0 + done
      invariant ctx.items == Handed(items0, item) && Handing(item) && (item.Some? <==> requestCount > 0)
      invariant keepAlive ==> !failed && whole == Then(done, requestCount, ServeCore(input, stream.pos, isSsl, handler, date))
      invariant !keepAlive ==> whole == CoreServed(done, requestCount, failed)
      decreases |input| - stream.pos, keepAlive
    {
      var go, f, served, written, handed := ServeCoreRequest(ctx, stream, isSsl, handler, date);
      ConcatAssoc(out0, done, written);
      HandedHanded(items0, item, handed);
      if go {
        ThenThen(done, requestCount, written, ServeCore(input, stream.pos, isSsl, handler, date));
      }
      done := done + written;
      if served {
        requestCount := requestCount + 1;
        item := handed;
      }
      failed := f;
      keepAlive := go;
    }
    return requestCount, failed, item;
  }

  // ---------------------------------------------------------------------
  // What the loop promises
  // ---------------------------------------------------------------------

  /**
   * A request head written out is read back as that request: the request
   * line is limited on its own and the header section on its own, and no
   * header may be a Cookie header that HttpRequestHeaders.Add refuses.
   */
  lemma CoreHeadRoundTrip(line: RequestLine, hs: seq<Header>, rest: Bytes)
    requires ' ' !in line.verb && ' ' !in line.path && line.verb != ""
    requires Printable(RequestLineText(line)) && |RequestLineText(line)| <= MaxRequestLineSize
    requires forall i :: 0 <= i < |hs| ==> WellFormed(hs[i]) && !CookieRefused(hs[i])
    requires SectionSize(hs) <= MaxHeaderSize
    ensures var text := RequestLineText(line);
            CoreHead(AsciiBytes(HeadText(text, hs)) + rest, 0) == Head(line, hs, |text| + 2 + SectionSize(hs))
  {
    var text := RequestLineText(line);
    var x := HeadBytes(text, hs, rest);
    var l := CoreHeadLines(x, text, hs, rest);
    RequestLineRead(line);
    CoreHeadKnown(x, l, text, line, hs, SectionSize(hs));
  }

  /** A written head is its request line, read at the start, and its header section, read back by the core's loop. */
  lemma CoreHeadLines(x: Bytes, text: string, hs: seq<Header>, rest: Bytes) returns (l: Line)
    requires x == AsciiBytes(text + "\r\n") + (AsciiBytes(HeaderLines(hs) + "\r\n") + rest)
    requires Printable(text) && forall i :: 0 <= i < |hs| ==> WellFormed(hs[i]) && !CookieRefused(hs[i])
    requires SectionSize(hs) <= MaxHeaderSize
    ensures LineAt(x, 0) == Some(l) && AsciiText(l.kept) == text && l.used == |text| + 2 <= |x|
    ensures HeaderAt(x, l.used, 0, true) == Headers(hs, SectionSize(hs))
  {
    var first := AsciiBytes(text + "\r\n");
    var more := AsciiBytes(HeaderLines(hs) + "\r\n") + rest;
    assert [] + first == first;
    l := LineReadAt([], text, more);
    ConcatAssoc(first, AsciiBytes(HeaderLines(hs) + "\r\n"), rest);
    SectionRoundTrip(first, hs, rest, 0, true);
  }

  /** The head whose line, read at the start, parses within the limit and whose header loop comes back with headers. */
  lemma CoreHeadKnown(x: Bytes, l: Line, text: string, line: RequestLine, hs: seq<Header>, n: nat)
    requires LineAt(x, 0) == Some(l) && AsciiText(l.kept) == text
    requires !AllWhite(text) && ParseRequestLine(text) == Some(line) && |text| <= MaxRequestLineSize
    requires l.used <= |x| && HeaderAt(x, l.used, 0, true) == Headers(hs, n)
    ensures CoreHead(x, 0) == Head(line, hs, l.used + n)
  {
  }

  /** A blank request line ends the loop quietly: nothing written, the next step never called. */
  lemma BlankLineEnds(text: string, rest: Bytes, isSsl: bool, handler: CoreHandler, date: string)
    requires Plain(text) && AllWhite(text)
    ensures ServeCore(AsciiBytes(text + "\r\n") + rest, 0, isSsl, handler, date) == CoreServed([], 0, false)
  {
    assert AsciiBytes(text + "\r\n") + rest == [] + AsciiBytes(text + "\r\n") + rest;
    var l := LineReadAt([], text, rest);
  }

  /**
   * A request line of three parts that is longer than MaxRequestLineSize
   * throws before any header is read: nothing is written and the next step
   * is never called.
   */
  lemma OverlongLineFails(text: string, rest: Bytes, isSsl: bool, handler: CoreHandler, date: string)
    requires Plain(text) && !AllWhite(text) && |text| > MaxRequestLineSize
    requires exists i, j :: 0 <= i < j < |text| && text[i] == ' ' && text[j] == ' '
    ensures ServeCore(AsciiBytes(text + "\r\n") + rest, 0, isSsl, handler, date) == CoreServed([], 0, true)
  {
    assert AsciiBytes(text + "\r\n") + rest == [] + AsciiBytes(text + "\r\n") + rest;
    var l := LineReadAt([], text, rest);
    MalformedRequestLine(text);
  }

  /**
   * A request that does not keep the connection alive is handed to the
   * next step once; what that step writes is all the output and the loop
   * ends without an exception.
   */
  lemma ClosingRequestServedOnce(line: RequestLine, hs: seq<Header>, rest: Bytes, isSsl: bool, handler: CoreHandler, date: string,
                                 r: CoreResponse, body: Body)
    requires ' ' !in line.verb && ' ' !in line.path && line.verb != ""
    requires Printable(RequestLineText(line)) && |RequestLineText(line)| <= MaxRequestLineSize
    requires forall i :: 0 <= i < |hs| ==> WellFormed(hs[i]) && !CookieRefused(hs[i])
    requires SectionSize(hs) <= MaxHeaderSize
    requires !KeepAliveOf(line.version, LastExact(hs, "Connection"))
    requires handler(CoreRequest(isSsl, line.verb, line.path, line.version, hs)) == Responds(r, body)
    ensures ServeCore(AsciiBytes(HeadText(RequestLineText(line), hs)) + rest, 0, isSsl, handler, date)
            == CoreServed(ResponseBytes(CoreRequest(isSsl, line.verb, line.path, line.version, hs), true, DefaultKeepAliveTimeout, r, body, date), 1, false)
  {
    var x := AsciiBytes(HeadText(RequestLineText(line), hs)) + rest;
    CoreHeadRoundTrip(line, hs, rest);
    var h := CoreHead(x, 0);
    ServeCoreIs(x, 0, h, isSsl, handler, date);
    var request := RequestOf(isSsl, h);
    var t := Turn(request, true, handler(request), date);
    var mode := CoreBodyMode(h.headers);
    var n := BodyDrain(mode.0, mode.1, x[h.used..]).0;
    CoreServeHead(x, 0, h, isSsl, handler, date, t, n);
    CoreContinueIs(x, h.used + n, t.0, false, isSsl, handler, date);
  }

  /**
   * A keep-alive request without a body, whose answer the context keeps
   * alive: it is answered, and the loop goes on with the bytes right
   * after its head.
   */
  lemma KeepAliveRequestContinues(line: RequestLine, hs: seq<Header>, rest: Bytes, isSsl: bool, handler: CoreHandler, date: string,
                                  r: CoreResponse, body: Body)
    requires ' ' !in line.verb && ' ' !in line.path && line.verb != ""
    requires Printable(RequestLineText(line)) && |RequestLineText(line)| <= MaxRequestLineSize
    requires forall i :: 0 <= i < |hs| ==> WellFormed(hs[i]) && !CookieRefused(hs[i])
    requires SectionSize(hs) <= MaxHeaderSize
    requires KeepAliveOf(line.version, LastExact(hs, "Connection"))
    requires LastExact(hs, "Transfer-Encoding") == None && LastExact(hs, "Content-Length") == None
    requires handler(CoreRequest(isSsl, line.verb, line.path, line.version, hs)) == Responds(r, body)
    requires Framed(r) || !body.Unseekable?
    ensures var head := AsciiBytes(HeadText(RequestLineText(line), hs));
            ServeCore(head + rest, 0, isSsl, handler, date)
            == Then(ResponseBytes(CoreRequest(isSsl, line.verb, line.path, line.version, hs), true, DefaultKeepAliveTimeout, r, body, date), 1,
                    ServeCore(head + rest, |head|, isSsl, handler, date))
  {
    var head := AsciiBytes(HeadText(RequestLineText(line), hs));
    var x := head + rest;
    var h := Head(line, hs, |head|);
    assert CoreHead(x, 0) == h by {
      CoreHeadRoundTrip(line, hs, rest);
      assert |HeadText(RequestLineText(line), hs)| == |RequestLineText(line)| + 2 + SectionSize(hs);
    }
    AnsweredHeadContinues(x, h, isSsl, handler, date, r, body);
    CoreContinueIs(x, |head|, ResponseBytes(RequestOf(isSsl, h), true, DefaultKeepAliveTimeout, r, body, date), true, isSsl, handler, date);
  }

  /** KeepAliveRequestContinues, for the head read at the start of the input. */
  lemma AnsweredHeadContinues(input: Bytes, h: HeadRead, isSsl: bool, handler: CoreHandler, date: string, r: CoreResponse, body: Body)
    requires h.Head? && CoreHead(input, 0) == h
    requires RequestKeepAlive(RequestOf(isSsl, h))
    requires LastExact(h.headers, "Transfer-Encoding") == None && LastExact(h.headers, "Content-Length") == None
    requires handler(RequestOf(isSsl, h)) == Responds(r, body) && (Framed(r) || !body.Unseekable?)
    ensures h.used <= |input|
    ensures ServeCore(input, 0, isSsl, handler, date)
            == CoreContinue(input, h.used, ResponseBytes(RequestOf(isSsl, h), true, DefaultKeepAliveTimeout, r, body, date), true, isSsl, handler, date)
  {
    ServeCoreIs(input, 0, h, isSsl, handler, date);
    var request := RequestOf(isSsl, h);
    var t := AnsweredTurn(request, handler(request), date, r, body);
    NothingDrained(h.headers, input[h.used..]);
    CoreServeGoesOn(input, 0, h, isSsl, handler, date, t, 0, h.used, ResponseBytes(request, true, DefaultKeepAliveTimeout, r, body, date), true);
  }

  /** The loop after a request whose turn did not throw, spelled with the position, bytes and flag it goes on with. */
  lemma CoreServeGoesOn(input: Bytes, p: nat, h: HeadRead, isSsl: bool, handler: CoreHandler, date: string,
                        t: (Bytes, bool, bool), n: nat, q: nat, w: Bytes, go: bool)
    requires h.Head? && 1 <= h.used <= |input| - p
    requires t == Turn(RequestOf(isSsl, h), true, handler(RequestOf(isSsl, h)), date) && !t.2
    requires n == BodyDrain(CoreBodyMode(h.headers).0, CoreBodyMode(h.headers).1, input[p + h.used..]).0
    requires q == p + h.used + n && w == t.0 && go == (RequestKeepAlive(RequestOf(isSsl, h)) && t.1)
    ensures q <= |input|
    ensures ServeCoreAfter(input, p, h, isSsl, handler, date) == CoreContinue(input, q, w, go, isSsl, handler, date)
  {
    AfterTurnIs(input, p, h, isSsl, handler, date, t);
    AfterTurnGoesOn(input, p, h, isSsl, handler, date, t, n, q, w, go);
  }

  /** ServeCoreAfter, with the turn as a value. */
  lemma AfterTurnIs(input: Bytes, p: nat, h: HeadRead, isSsl: bool, handler: CoreHandler, date: string, t: (Bytes, bool, bool))
    requires h.Head? && 1 <= h.used <= |input| - p
    requires t == Turn(RequestOf(isSsl, h), true, handler(RequestOf(isSsl, h)), date)
    ensures ServeCoreAfter(input, p, h, isSsl, handler, date) == CoreAfterTurn(input, p, h, isSsl, handler, date, t)
  {
  }

  /** CoreAfterTurn on a turn that did not throw. */
  lemma AfterTurnGoesOn(input: Bytes, p: nat, h: HeadRead, isSsl: bool, handler: CoreHandler, date: string,
                        t: (Bytes, bool, bool), n: nat, q: nat, w: Bytes, go: bool)
    requires h.Head? && 1 <= h.used <= |input| - p && !t.2
    requires n == BodyDrain(CoreBodyMode(h.headers).0, CoreBodyMode(h.headers).1, input[p + h.used..]).0
    requires q == p + h.used + n && w == t.0 && go == (RequestKeepAlive(RequestOf(isSsl, h)) && t.1)
    ensures q <= |input|
    ensures CoreAfterTurn(input, p, h, isSsl, handler, date, t) == CoreContinue(input, q, w, go, isSsl, handler, date)
  {
  }

  /** A response the loop can go on after: its bytes written, keep-alive kept, nothing thrown. */
  lemma AnsweredTurn(request: CoreRequest, action: Action, date: string, r: CoreResponse, body: Body) returns (t: (Bytes, bool, bool))
    requires action == Responds(r, body) && (Framed(r) || !body.Unseekable?)
    ensures t == Turn(request, true, action, date)
    ensures t == (ResponseBytes(request, true, DefaultKeepAliveTimeout, r, body, date), true, false)
  {
    t := Turn(request, true, action, date);
  }

  /** Without Transfer-Encoding and Content-Length, the drain takes nothing. */
  lemma NothingDrained(hs: seq<Header>, rest: Bytes)
    requires LastExact(hs, "Transfer-Encoding") == None && LastExact(hs, "Content-Length") == None
    ensures BodyDrain(CoreBodyMode(hs).0, CoreBodyMode(hs).1, rest).0 == 0
  {
  }

  // ---------------------------------------------------------------------
  // The context's keep-alive flag
  // ---------------------------------------------------------------------

  /**
   * The context is built with the loop's flag, which is true on every
   * turn, before the request's own keep-alive decision is taken. So a
   * request that ends keep-alive, answered with a response that sets no
   * Connection header and whose length is known, is answered with
   * "Connection: keep-alive" while the loop stops after it.
   */
  lemma StaleKeepAliveAnnounced(line: RequestLine, hs: seq<Header>, rest: Bytes, isSsl: bool, handler: CoreHandler, date: string,
                                r: CoreResponse, body: Body)
    requires ' ' !in line.verb && ' ' !in line.path && line.verb != ""
    requires Printable(RequestLineText(line)) && |RequestLineText(line)| <= MaxRequestLineSize
    requires forall i :: 0 <= i < |hs| ==> WellFormed(hs[i]) && !CookieRefused(hs[i])
    requires SectionSize(hs) <= MaxHeaderSize
    requires !KeepAliveOf(line.version, LastExact(hs, "Connection"))
    requires handler(CoreRequest(isSsl, line.verb, line.path, line.version, hs)) == Responds(r, body)
    requires !HasHeader(r.headers, "Connection") && (Framed(r) || !body.Unseekable?)
    ensures var s := ServeCore(AsciiBytes(HeadText(RequestLineText(line), hs)) + rest, 0, isSsl, handler, date);
            && s.requests == 1 && !s.failed
            && s.output == ResponseBytes(CoreRequest(isSsl, line.verb, line.path, line.version, hs), true, DefaultKeepAliveTimeout, r, body, date)
            && GetHeader(ResponseLines(r, body, true, DefaultKeepAliveTimeout, date), "Connection") == Some("keep-alive")
  {
    ClosingRequestServedOnce(line, hs, rest, isSsl, handler, date, r, body);
    WrittenFraming(r, body, true, DefaultKeepAliveTimeout, date);
  }

  /** The next step on a context built with the request's own keep-alive decision. */
  function TurnFixed(request: CoreRequest, action: Action, date: string): (Bytes, bool, bool)
  {
    Turn(request, RequestKeepAlive(request), action, date)
  }

  /**
   * With the request's own decision, the Connection header a response
   * without one is given says keep-alive exactly when the loop goes on
   * after it.
   */
  lemma FixedAnnouncesLoop(request: CoreRequest, r: CoreResponse, body: Body, date: string)
    requires !HasHeader(r.headers, "Connection")
    ensures var t := TurnFixed(request, Responds(r, body), date);
            GetHeader(ResponseLines(r, body, RequestKeepAlive(request), DefaultKeepAliveTimeout, date), "Connection")
            == Some(if RequestKeepAlive(request) && t.1 then "keep-alive" else "close")
  {
    WrittenFraming(r, body, RequestKeepAlive(request), DefaultKeepAliveTimeout, date);
  }
}
