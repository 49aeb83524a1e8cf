/**
 * The header section of an HTTP/1 request as the HTTP/1 steps of
 * WRM.HTTP.HTTP1 and WRM/WRM.Core read it off the connection: lines come
 * from the stream's line reader; every line read, the empty one included,
 * adds its length plus two to a running size that may not pass 8192; an
 * empty line ends the section; a line without a usable ':' is skipped; a
 * null line (the stream has ended) is read again and again until the
 * request's timeout fires.
 */
module Http1Head {
  import opened Common
  import opened Strings
  import opened Channel
  import opened LineReader
  import opened Http1Syntax
  import opened RequestHeaders

  /** MaxHeaderSize. */
  const MaxHeaderSize: nat := 8192

  /**
   * The outcome of the header loop: the headers in order and the bytes
   * consumed through the empty line; the size check failing; a Cookie
   * header that HttpRequestHeaders.Add refuses; or the end of the stream
   * before the empty line.
   */
  datatype HeaderRead = Headers(headers: seq<Header>, used: nat) | TooLarge | BadCookie | Unended

  /** Headers read and bytes consumed so far, followed by the loop's outcome on what is left. */
  function Resume(hs: seq<Header>, used: nat, later: HeaderRead): HeaderRead
  {
    match later
    case Headers(more, u) => Headers(hs + more, used + u)
    case other => other
  }

  lemma ResumeNone(later: HeaderRead)
    ensures Resume([], 0, later) == later
  {
    if later.Headers? {
      assert [] + later.headers == later.headers;
    }
  }

  lemma ResumeResume(a: seq<Header>, u: nat, b: seq<Header>, v: nat, later: HeaderRead)
    ensures Resume(a, u, Resume(b, v, later)) == Resume(a + b, u + v, later)
  {
    if later.Headers? {
      assert a + (b + later.headers) == (a + b) + later.headers;
    }
  }

  /** A Cookie header (the name compared exactly) with a piece that has no ':'. */
  predicate CookieRefused(h: Header)
  {
    h.0 == "Cookie" && !CookiesIn(h.1).1
  }

  /** What the loop does with a line that is not empty. */
  datatype Action = Skip | Keep(header: Header) | Refuse

  /**
   * A line without a usable ':' is skipped; otherwise its header is added,
   * through HttpRequestHeaders.Add when `cookies`, which throws on a Cookie
   * header it cannot split.
   */
  function LineAction(line: string, cookies: bool): Action
  {
    match HeaderLine(line)
    case None => Skip
    case Some(h) => if cookies && CookieRefused(h) then Refuse else Keep(h)
  }

  /** The headers an action adds. */
  function Kept(a: Action): seq<Header>
  {
    if a.Keep? then [a.header] else []
  }

  /**
   * The header loop on the input from position `p` on, `size` counted so
   * far, one line at a time as the source runs it: the stream ends first
   * (the section never ends), the line, the empty one included, takes the
   * size past the limit, the empty line ends the section and is consumed
   * with it, a Cookie header is refused, or the line's header is kept and
   * the loop goes on after the line. Positions rather than suffixes of the
   * input keep the proofs about a stream that moves forward small.
   */
  function HeaderAt(input: Bytes, p: nat, size: nat, cookies: bool): (r: HeaderRead)
    requires p <= |input|
    decreases |input| - p, 1
  {
    match LineAt(input, p)
    case None => Unended
    case Some(l) => LineOutcome(input, p + l.used, AsciiText(l.kept), l.used, size, cookies)
  }

  /** The loop once a line, `text` in `used` bytes, has been read and the input goes on at `q`. */
  function LineOutcome(input: Bytes, q: nat, text: string, used: nat, size: nat, cookies: bool): (r: HeaderRead)
    requires q <= |input|
    decreases |input| - q + 1, 0
  {
    var a := LineAction(text, cookies);
    if size + |text| + 2 > MaxHeaderSize then TooLarge
    else if text == "" then Headers([], used)
    else if a.Refuse? then BadCookie
    else Resume(Kept(a), used, HeaderAt(input, q, size + |text| + 2, cookies))
  }

  /** The loop at a position where a line is read. */
  lemma HeaderAtLine(input: Bytes, p: nat, l: Line, size: nat, cookies: bool)
    requires p <= |input| && LineAt(input, p) == Some(l)
    ensures p + l.used <= |input|
    ensures HeaderAt(input, p, size, cookies) == LineOutcome(input, p + l.used, AsciiText(l.kept), l.used, size, cookies)
  {
  }

  /** The loop where ReadLineAsync, called at `at`, returned `line` and left the stream at `pos`. */
  lemma HeaderAtRead(input: Bytes, at: nat, pos: nat, line: Option<string>, size: nat, cookies: bool)
    requires at <= |input|
    requires match LineAt(input, at)
               case None => line == None && pos == |input|
               case Some(l) => line == Some(AsciiText(l.kept)) && pos == at + l.used
    ensures line.None? ==> HeaderAt(input, at, size, cookies) == Unended
    ensures line.Some? ==> at < pos <= |input|
    ensures line.Some? ==> HeaderAt(input, at, size, cookies) == LineOutcome(input, pos, line.value, pos - at, size, cookies)
  {
  }

  /** The loop on a line that is kept. */
  lemma LineKept(input: Bytes, q: nat, used: nat, text: string, size: nat, cookies: bool, h: Header)
    requires q <= |input|
    requires size + |text| + 2 <= MaxHeaderSize && text != "" && LineAction(text, cookies) == Keep(h)
    ensures LineOutcome(input, q, text, used, size, cookies) == Resume([h], used, HeaderAt(input, q, size + |text| + 2, cookies))
  {
  }

  /** The loop on a line that is kept, at the position it is read. */
  lemma HeaderAtKeeps(input: Bytes, p: nat, l: Line, text: string, size: nat, cookies: bool, h: Header)
    requires p <= |input| && LineAt(input, p) == Some(l) && AsciiText(l.kept) == text
    requires size + |text| + 2 <= MaxHeaderSize && text != "" && LineAction(text, cookies) == Keep(h)
    ensures p + l.used <= |input|
    ensures HeaderAt(input, p, size, cookies) == Resume([h], l.used, HeaderAt(input, p + l.used, size + |text| + 2, cookies))
  {
    HeaderAtLine(input, p, l, size, cookies);
    LineKept(input, p + l.used, l.used, text, size, cookies, h);
  }

  /** The loop on the empty line. */
  lemma HeaderAtEnds(input: Bytes, p: nat, l: Line, size: nat, cookies: bool)
    requires p <= |input| && LineAt(input, p) == Some(l) && AsciiText(l.kept) == ""
    requires size + 2 <= MaxHeaderSize
    ensures HeaderAt(input, p, size, cookies) == Headers([], l.used)
  {
    HeaderAtLine(input, p, l, size, cookies);
  }

  /** The headers come back in the order of their lines, and the loop consumes no more than the input holds. */
  lemma {:induction false} HeaderAtUsed(input: Bytes, p: nat, size: nat, cookies: bool)
    requires p <= |input|
    ensures HeaderAt(input, p, size, cookies).Headers? ==> 1 <= HeaderAt(input, p, size, cookies).used <= |input| - p
    decreases |input| - p
  {
    match LineAt(input, p)
    case None =>
    case Some(l) =>
      var text := AsciiText(l.kept);
      if size + |text| + 2 <= MaxHeaderSize && text != "" && !LineAction(text, cookies).Refuse? {
        HeaderAtUsed(input, p + l.used, size + |text| + 2, cookies);
      }
  }

  /** What one turn of the header loop leaves: the loop's outcome, or the headers it kept and the new size. */
  datatype LineStep = Done(outcome: HeaderRead) | Go(kept: seq<Header>, size: nat)

  /** One turn of the header loop: a ReadLineAsync and what the source does with the line. */
  method ReadHeaderLine(stream: Channel, size: nat, cookies: bool) returns (step: LineStep)
    requires stream.Valid()
    modifies stream`pos
    ensures stream.Valid() && old(stream.pos) <= stream.pos
    ensures step.Done? ==> HeaderAt(stream.input, old(stream.pos), size, cookies) == step.outcome
    ensures step.Done? && step.outcome.Headers? ==> step.outcome == Headers([], stream.pos - old(stream.pos))
    ensures step.Go? ==> old(stream.pos) < stream.pos
    ensures step.Go? ==>
              HeaderAt(stream.input, old(stream.pos), size, cookies) ==
                Resume(step.kept, stream.pos - old(stream.pos), HeaderAt(stream.input, stream.pos, step.size, cookies))
  {
    var at := stream.pos;
    var line := ReadLineAt(stream);
    HeaderAtRead(stream.input, at, stream.pos, line, size, cookies);
    if line.None? {
      // the source reads again, and again gets null, until the request's timeout fires
      return Done(Unended);
    }
    var text := line.value;
    if size + |text| + 2 > MaxHeaderSize {
      return Done(TooLarge);
    }
    if text == "" {
      return Done(Headers([], stream.pos - at));
    }
    var a := LineAction(text, cookies);
    if a.Refuse? {
      return Done(BadCookie);
    }
    return Go(Kept(a), size + |text| + 2);
  }

  /**
   * The header loop: lines until the empty one, each counted against the
   * size limit, headers kept in order with duplicates; `cookies` when they
   * go through HttpRequestHeaders.Add.
   */
  method ReadHeaderSection(stream: Channel, size0: nat, cookies: bool) returns (r: HeaderRead)
    requires stream.Valid()
    modifies stream`pos
    ensures stream.Valid() && old(stream.pos) <= stream.pos
    ensures r == HeaderAt(stream.input, old(stream.pos), size0, cookies)
    ensures r.Headers? ==> stream.pos == old(stream.pos) + r.used
  {
    var headers: seq<Header> := [];
    var size: nat := size0;
    var start := stream.pos;
    ResumeNone(HeaderAt(stream.input, start, size0, cookies));
    while true
      invariant stream.Valid() && start <= stream.pos
      invariant HeaderAt(stream.input, start, size0, cookies) ==
                  Resume(headers, stream.pos - start, HeaderAt(stream.input, stream.pos, size, cookies))
      decreases |stream.input| - stream.pos
    {
      var at := stream.pos;
      var step := ReadHeaderLine(stream, size, cookies);
      if step.Done? {
        return Resume(headers, at - start, step.outcome);
      }
      ResumeResume(headers, at - start, step.kept, stream.pos - at, HeaderAt(stream.input, stream.pos, step.size, cookies));
      headers := headers + step.kept;
      size := step.size;
    }
  }

  // ---------------------------------------------------------------------
  // Reading back a written section
  // ---------------------------------------------------------------------

  /** One ASCII line without CR or LF in it. */
  predicate Plain(t: string)
  {
    forall i :: 0 <= i < |t| ==> t[i] as int < 128 && t[i] != '\r' && t[i] != '\n'
  }

  lemma {:induction false} DropCRKeeps(b: Bytes)
    requires CR !in b
    ensures DropCR(b + [CR]) == b
  {
    if b == [] {
      assert DropCR([CR]) == [] + DropCR([]);
    } else {
      assert (b + [CR])[0] == b[0] && (b + [CR])[1..] == b[1..] + [CR];
      DropCRKeeps(b[1..]);
      assert b == [b[0]] + b[1..];
    }
  }

  /** A line written as ASCII text and CR LF is read back as that text, consuming the CR LF. */
  lemma LineRead(t: string, rest: Bytes)
    requires Plain(t)
    ensures NextLine(AsciiBytes(t + "\r\n") + rest) == Some(Line(AsciiBytes(t), |t| + 2))
    ensures AsciiText(AsciiBytes(t)) == t
  {
    var b := AsciiBytes(t);
    AsciiConcat(t, "\r\n");
    assert AsciiBytes("\r\n") == [CR, LF];
    assert AsciiBytes(t + "\r\n") + rest == (b + [CR]) + [LF] + rest;
    assert forall i :: 0 <= i < |b| ==> b[i] != LF && b[i] != CR;
    assert LF !in b + [CR];
    NextLineOf(b + [CR], rest);
    DropCRKeeps(b);
    assert AsciiText(b) == t;
  }

  /** LineRead at a position of the input. */
  lemma LineReadAt(pre: Bytes, t: string, rest: Bytes) returns (l: Line)
    requires Plain(t)
    ensures var x := pre + AsciiBytes(t + "\r\n") + rest;
            |pre| <= |x| && LineAt(x, |pre|) == Some(l)
    ensures AsciiText(l.kept) == t && l.used == |t| + 2
  {
    var x := pre + AsciiBytes(t + "\r\n") + rest;
    LineAtIs(x, |pre|);
    assert x[|pre|..] == AsciiBytes(t + "\r\n") + rest;
    LineRead(t, rest);
    l := Line(AsciiBytes(t), |t| + 2);
  }

  /** The bytes a header section takes: each header's line, then the empty line. */
  function SectionSize(hs: seq<Header>): nat
  {
    |HeaderLines(hs)| + 2
  }

  /** A well-formed header's line is kept as that header, unless Add refuses it as a cookie. */
  lemma HeaderKept(h: Header, cookies: bool)
    requires WellFormed(h) && !(cookies && CookieRefused(h))
    ensures LineAction(HeaderText(h), cookies) == Keep(h)
  {
    HeaderLineOf(h);
  }

  /** A well-formed header's line is one ASCII line. */
  lemma WrittenPlain(h: Header)
    requires WellFormed(h)
    ensures Plain(HeaderText(h)) && HeaderText(h) != ""
  {
    var t := HeaderText(h);
    assert forall i :: 0 <= i < |t| ==> t[i] == if i < |h.0| then h.0[i] else if i < |h.0| + 2 then ": "[i - |h.0|] else h.1[i - |h.0| - 2];
  }

  /** A section's bytes as its first line's and the rest's. */
  lemma SectionBytes(pre: Bytes, h: Header, tail: seq<Header>, rest: Bytes) returns (pre': Bytes)
    ensures var t := HeaderText(h);
            var x := pre + AsciiBytes(HeaderLines([h] + tail) + "\r\n") + rest;
            && pre' == pre + AsciiBytes(t + "\r\n")
            && |pre'| == |pre| + |t| + 2
            && x == pre + AsciiBytes(t + "\r\n") + (AsciiBytes(HeaderLines(tail) + "\r\n") + rest)
            && x == pre' + AsciiBytes(HeaderLines(tail) + "\r\n") + rest
            && SectionSize([h] + tail) == |t| + 2 + SectionSize(tail)
  {
    var t := HeaderText(h);
    assert ([h] + tail)[1..] == tail;
    assert HeaderLines([h] + tail) + "\r\n" == (t + "\r\n") + (HeaderLines(tail) + "\r\n");
    AsciiConcat(t + "\r\n", HeaderLines(tail) + "\r\n");
    pre' := pre + AsciiBytes(t + "\r\n");
  }

  lemma SectionSize1(h: Header, tail: seq<Header>)
    ensures SectionSize([h] + tail) == |HeaderText(h)| + 2 + SectionSize(tail)
  {
    assert ([h] + tail)[1..] == tail;
  }

  /** The section with one more header in front of it, read at `pre`'s end. */
  lemma SectionStep(pre: Bytes, h: Header, tail: seq<Header>, rest: Bytes, size: nat, cookies: bool)
    requires WellFormed(h) && !(cookies && CookieRefused(h))
    requires size + |HeaderText(h)| + 2 + SectionSize(tail) <= MaxHeaderSize
    requires var pre' := pre + AsciiBytes(HeaderText(h) + "\r\n");
             var x' := pre' + AsciiBytes(HeaderLines(tail) + "\r\n") + rest;
             |pre'| <= |x'| && HeaderAt(x', |pre'|, size + |HeaderText(h)| + 2, cookies) == Headers(tail, SectionSize(tail))
    ensures var x := pre + AsciiBytes(HeaderLines([h] + tail) + "\r\n") + rest;
            |pre| <= |x| && HeaderAt(x, |pre|, size, cookies) == Headers([h] + tail, SectionSize([h] + tail))
  {
    var x := pre + AsciiBytes(HeaderLines([h] + tail) + "\r\n") + rest;
    var t := HeaderText(h);
    var more := AsciiBytes(HeaderLines(tail) + "\r\n") + rest;
    var pre' := SectionBytes(pre, h, tail, rest);
    WrittenPlain(h);
    var l := LineReadAt(pre, t, more);
    HeaderLineKept(x, |pre|, l, h, size, cookies, Headers(tail, SectionSize(tail)));
  }

  /** A written header's line, at `p`, is kept and the loop goes on after it. */
  lemma HeaderLineKept(x: Bytes, p: nat, l: Line, h: Header, size: nat, cookies: bool, later: HeaderRead)
    requires WellFormed(h) && !(cookies && CookieRefused(h)) && HeaderText(h) != ""
    requires p <= |x| && LineAt(x, p) == Some(l)
    requires AsciiText(l.kept) == HeaderText(h) && l.used == |HeaderText(h)| + 2
    requires size + |HeaderText(h)| + 2 <= MaxHeaderSize
    requires p + l.used <= |x|
    requires HeaderAt(x, p + l.used, size + |HeaderText(h)| + 2, cookies) == later
    ensures HeaderAt(x, p, size, cookies) == Resume([h], l.used, later)
  {
    var t := HeaderText(h);
    assert LineAction(t, cookies) == Keep(h) by {
      HeaderKept(h, cookies);
    }
    HeaderAtKeeps(x, p, l, t, size, cookies, h);
  }


  /**
   * A header section as the response writers put it together is read back
   * header for header through its empty line, provided every header is
   * well formed, the section fits the size limit and, through
   * HttpRequestHeaders.Add, has no Cookie header Add refuses.
   */
  lemma {:induction false} SectionRoundTrip(pre: Bytes, hs: seq<Header>, rest: Bytes, size: nat, cookies: bool)
    requires forall i :: 0 <= i < |hs| ==> WellFormed(hs[i])
    requires cookies ==> forall i :: 0 <= i < |hs| ==> !CookieRefused(hs[i])
    requires size + SectionSize(hs) <= MaxHeaderSize
    ensures var x := pre + AsciiBytes(HeaderLines(hs) + "\r\n") + rest;
            |pre| <= |x| && HeaderAt(x, |pre|, size, cookies) == Headers(hs, SectionSize(hs))
    decreases |hs|
  {
    var x := pre + AsciiBytes(HeaderLines(hs) + "\r\n") + rest;
    if hs == [] {
      assert HeaderLines(hs) + "\r\n" == "" + "\r\n";
      var l := LineReadAt(pre, "", rest);
      HeaderAtEnds(x, |pre|, l, size, cookies);
    } else {
      var h, tail := hs[0], hs[1..];
      assert forall i :: 0 <= i < |tail| ==> tail[i] == hs[i + 1];
      assert [h] + tail == hs;
      SectionSize1(h, tail);
      SectionRoundTrip(pre + AsciiBytes(HeaderText(h) + "\r\n"), tail, rest, size + |HeaderText(h)| + 2, cookies);
      SectionStep(pre, h, tail, rest, size, cookies);
    }
  }
}
