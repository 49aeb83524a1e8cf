/**
 * Http1ParsingStep (WRM.Core/Plugins/Http/Steps): on a connection the
 * detection step classified as HTTP/1 under "protocol", it parses exactly
 * one request head with the line reader, stores the request under "http"
 * and calls the next step once. A missing or blank request line, and one
 * with fewer than three parts, end the step without calling the next
 * step. Header lines are read until an empty line or the end of the
 * stream; each is cut at its first ':' with both sides trimmed and stored
 * in a dictionary that compares names ignoring case, so the last value of
 * a name wins.
 */
module CoreHttp1ParsingStep {
  import opened Common
  import opened Strings
  import opened Channel
  import opened LineReader
  import opened Http1Syntax
  import opened Http1Head
  import opened HttpMessage
  import opened NetworkContext
  import Http1ParsingStep

  // ---------------------------------------------------------------------
  // The header loop
  // ---------------------------------------------------------------------

  /** `req.Headers[name] = value` for a line that splits at a ':' after its first character; other lines are skipped. */
  function Store(d: Dict, line: string): Dict
  {
    match HeaderLine(line)
    case None => d
    case Some(h) => Set(d, h.0, h.1)
  }

  /**
   * The header loop from position `p` with the dictionary `d` so far: the
   * dictionary it ends with and the position it stops at, after the empty
   * line or at the end of the stream.
   */
  function HeaderLoop(input: Bytes, p: nat, d: Dict): (r: (Dict, nat))
    requires p <= |input|
    ensures p <= r.1 <= |input|
    decreases |input| - p, 1
  {
    match LineAt(input, p)
    case None => (d, |input|)
    case Some(l) => LineStored(input, p + l.used, AsciiText(l.kept), d)
  }

  /** The loop once a line, `text`, has been read and the input goes on at `q`: the empty line ends it. */
  function LineStored(input: Bytes, q: nat, text: string, d: Dict): (r: (Dict, nat))
    requires q <= |input|
    ensures q <= r.1 <= |input|
    decreases |input| - q + 1, 0
  {
    if text == "" then (d, q) else HeaderLoop(input, q, Store(d, text))
  }

  /** What the step does with the input from `p` on: the request it hands on, if any, and where it stops reading. */
  datatype Outcome = Outcome(request: Option<Request>, end: nat)

  /**
   * The request at position `p`: none when the stream ends first, or the
   * request line is blank or has fewer than three parts; otherwise the
   * request line's parts and the header loop's dictionary, without a body.
   */
  function RequestAt(input: Bytes, p: nat): (r: Outcome)
    requires p <= |input|
    ensures p <= r.end <= |input|
    ensures r.request.Some? ==> p < r.end
  {
    match LineAt(input, p)
    case None => Outcome(None, |input|)
    case Some(l) =>
      var text := AsciiText(l.kept);
      if IsNullOrWhiteSpace(Some(text)) then Outcome(None, p + l.used)
      else
        match ParseRequestLine(text)
        case None => Outcome(None, p + l.used)
        case Some(line) =>
          var hd := HeaderLoop(input, p + l.used, []);
          Outcome(Some(Request(line.verb, line.path, line.version, hd.0, None)), hd.1)
  }

  /** The header loop, with the line reader over the connection's stream. */
  method ReadHeaders(stream: Channel) returns (d: Dict)
    requires stream.Valid()
    modifies stream`pos
    ensures stream.Valid()
    ensures (d, stream.pos) == HeaderLoop(stream.input, old(stream.pos), [])
  {
    d := [];
    while true
      invariant stream.Valid() && old(stream.pos) <= stream.pos
      invariant HeaderLoop(stream.input, old(stream.pos), []) == HeaderLoop(stream.input, stream.pos, d)
      decreases |stream.input| - stream.pos
    {
      var line := ReadLineAt(stream);
      if line.None? || line.value == "" {
        break;
      }
      var h := HeaderLine(line.value);
      if h.Some? {
        d := Set(d, h.value.0, h.value.1);
      }
    }
  }

  /**
   * InvokeAsync: a connection not classified as HTTP/1 under "protocol"
   * only runs `next`; otherwise one request is read, and only a request
   * that was read is stored under "http" and handed to `next`.
   */
  method InvokeAsync(ctx: NetworkContext) returns (nexts: nat)
    requires ctx.connection.Valid()
    modifies ctx.connection`pos, ctx`items
    ensures ctx.connection.Valid()
    ensures !HasProtocol(old(ctx.items), "protocol", Http1) ==>
              nexts == 1 && ctx.connection.pos == old(ctx.connection.pos) && ctx.items == old(ctx.items)
    ensures HasProtocol(old(ctx.items), "protocol", Http1) ==>
              var o := RequestAt(ctx.connection.input, old(ctx.connection.pos));
              && ctx.connection.pos == o.end
              && (o.request.None? ==> nexts == 0 && ctx.items == old(ctx.items))
              && (o.request.Some? ==> nexts == 1 && ctx.items == old(ctx.items)["http" := RequestItem(o.request.value)])
  {
    if !HasProtocol(ctx.items, "protocol", Http1) {
      return 1;
    }
    var stream := ctx.connection;
    var requestLine := ReadLineAt(stream);
    if IsNullOrWhiteSpace(requestLine) {
      return 0;
    }
    var parts := ParseRequestLine(requestLine.value);
    if parts.None? {
      return 0;
    }
    var headers := ReadHeaders(stream);
    var req := Request(parts.value.verb, parts.value.path, parts.value.version, headers, None);
    ctx.items := ctx.items["http" := RequestItem(req)];
    return 1;
  }

  // ---------------------------------------------------------------------
  // What the step promises
  // ---------------------------------------------------------------------

  /** The headers stored one after the other into `d`, as the header loop does with each line. */
  function StoreAll(d: Dict, hs: seq<Header>): Dict
    decreases |hs|
  {
    if hs == [] then d else StoreAll(Set(d, hs[0].0, hs[0].1), hs[1..])
  }

  /** The value of the last header whose name matches `name` ignoring case: the reference for "last value wins". */
  function LastValue(hs: seq<Header>, name: string): Option<string>
    decreases |hs|
  {
    if hs == [] then None
    else
      match LastValue(hs[1..], name)
      case Some(v) => Some(v)
      case None => if EqualsIgnoreCase(hs[0].0, name) then Some(hs[0].1) else None
  }

  /** Dictionary lookups see names only up to case. */
  lemma FindIgnoresCase(d: Dict, a: string, b: string)
    requires EqualsIgnoreCase(a, b)
    ensures Find(d, a) == Find(d, b)
  {
    var i, j := Find(d, a), Find(d, b);
    if i >= 0 && (j == -1 || i < j) {
      assert EqualsIgnoreCase(d[i].0, b);
    } else if j >= 0 && (i == -1 || j < i) {
      assert EqualsIgnoreCase(d[j].0, a);
    }
  }

  /** After `d[name] = value`, every spelling of the name reads back `value`. */
  lemma SetGetIgnoringCase(d: Dict, name: string, value: string, other: string)
    requires EqualsIgnoreCase(name, other)
    ensures Get(Set(d, name, value), other) == Some(value)
  {
    SetGet(d, name, value);
    FindIgnoresCase(Set(d, name, value), name, other);
  }

  /**
   * The last value of a name wins: after storing `hs`, a name reads back
   * the value of the last header that matches it ignoring case, and what
   * it read before when none does.
   */
  lemma {:induction false} LastValueWins(d: Dict, hs: seq<Header>, name: string)
    ensures Get(StoreAll(d, hs), name) == if LastValue(hs, name).Some? then LastValue(hs, name) else Get(d, name)
    decreases |hs|
  {
    if hs != [] {
      var h := hs[0];
      LastValueWins(Set(d, h.0, h.1), hs[1..], name);
      if EqualsIgnoreCase(h.0, name) {
        SetGetIgnoringCase(d, h.0, h.1, name);
      } else {
        SetOther(d, h.0, h.1, name);
      }
    }
  }

  /** Storing headers keeps the dictionary's names distinct ignoring case. */
  lemma {:induction false} StoreAllDistinct(d: Dict, hs: seq<Header>)
    requires DistinctKeys(d)
    ensures DistinctKeys(StoreAll(d, hs))
    decreases |hs|
  {
    if hs != [] {
      SetDistinct(d, hs[0].0, hs[0].1);
      StoreAllDistinct(Set(d, hs[0].0, hs[0].1), hs[1..]);
    }
  }

  /** The loop at a position where a line is read. */
  lemma HeaderLoopLine(input: Bytes, p: nat, l: Line, d: Dict)
    requires p <= |input| && LineAt(input, p) == Some(l)
    ensures p + l.used <= |input|
    ensures HeaderLoop(input, p, d) == LineStored(input, p + l.used, AsciiText(l.kept), d)
  {
  }

  /** A well-formed header's line is stored and the loop goes on after it. */
  lemma LineKept(input: Bytes, q: nat, h: Header, d: Dict)
    requires WellFormed(h) && q <= |input|
    ensures LineStored(input, q, HeaderText(h), d) == HeaderLoop(input, q, Set(d, h.0, h.1))
  {
    WrittenPlain(h);
    HeaderLineOf(h);
  }

  /** A well-formed header's line, wherever it is read, is stored and the loop goes on after it. */
  lemma HeaderLoopKeeps(x: Bytes, p: nat, l: Line, h: Header, d: Dict, q: nat, later: (Dict, nat))
    requires WellFormed(h) && p <= |x| && LineAt(x, p) == Some(l) && AsciiText(l.kept) == HeaderText(h)
    requires q == p + l.used <= |x| && HeaderLoop(x, q, Set(d, h.0, h.1)) == later
    ensures HeaderLoop(x, p, d) == later
  {
    HeaderLoopLine(x, p, l, d);
    LineKept(x, q, h, d);
  }

  /** What the loop comes back with after a section's first line, seen from the section's start. */
  lemma SectionStored(hs: seq<Header>, d: Dict, p: nat, used: nat, q: nat, r: (Dict, nat))
    requires hs != [] && SectionSize(hs) == used + SectionSize(hs[1..]) && q == p + used
    requires r == (StoreAll(Set(d, hs[0].0, hs[0].1), hs[1..]), q + SectionSize(hs[1..]))
    ensures r == (StoreAll(d, hs), p + SectionSize(hs))
  {
  }

  /** `s` encoded is what the input holds from `p` on. */
  predicate WrittenAt(x: Bytes, p: nat, s: string)
  {
    p + |s| <= |x| && x[p..p + |s|] == AsciiBytes(s)
  }

  /** A line written at `p` is read there. */
  lemma LineIn(x: Bytes, p: nat, t: string) returns (l: Line)
    requires Plain(t) && WrittenAt(x, p, t + "\r\n")
    ensures p <= |x| && LineAt(x, p) == Some(l) && AsciiText(l.kept) == t && l.used == |t| + 2
  {
    var pre, rest := x[..p], x[p + |t| + 2..];
    assert x == pre + AsciiBytes(t + "\r\n") + rest;
    l := LineReadAt(pre, t, rest);
  }

  /** A written section is its first header's line, then the section of the others. */
  lemma SectionIn(x: Bytes, p: nat, hs: seq<Header>)
    requires hs != [] && WrittenAt(x, p, HeaderLines(hs) + "\r\n")
    ensures var n := |HeaderText(hs[0])| + 2;
            && SectionSize(hs) == n + SectionSize(hs[1..])
            && WrittenAt(x, p, HeaderText(hs[0]) + "\r\n")
            && WrittenAt(x, p + n, HeaderLines(hs[1..]) + "\r\n")
  {
    var a, b := HeaderText(hs[0]) + "\r\n", HeaderLines(hs[1..]) + "\r\n";
    HeaderLinesCons(hs);
    AsciiConcat(a, b);
    Halves(x, p, AsciiBytes(a), AsciiBytes(b));
  }

  /** Bytes `u + v` at `p` are `u` at `p` and `v` right after it. */
  lemma Halves(x: Bytes, p: nat, u: Bytes, v: Bytes)
    requires p + |u| + |v| <= |x| && x[p..p + |u| + |v|] == u + v
    ensures x[p..p + |u|] == u && x[p + |u|..p + |u| + |v|] == v
  {
    assert forall i :: p <= i < p + |u| + |v| ==> x[i] == (u + v)[i - p];
  }

  /**
   * A header section as a client writes it is read through its empty line,
   * and every header in it is stored in order, whatever follows.
   */
  lemma {:induction false} HeaderLoopRoundTrip(x: Bytes, p: nat, hs: seq<Header>, d: Dict)
    requires forall i :: 0 <= i < |hs| ==> WellFormed(hs[i])
    requires WrittenAt(x, p, HeaderLines(hs) + "\r\n")
    ensures SectionRead(x, p, d, hs)
    decreases |hs|
  {
    if hs == [] {
      SectionEnds(x, p, hs, d);
    } else {
      var l := FirstLine(x, p, hs);
      var q, d' := p + l.used, Set(d, hs[0].0, hs[0].1);
      HeaderLoopRoundTrip(x, q, hs[1..], d');
      HeaderLoopJoin(x, p, hs, d, l, q, d');
    }
  }

  /** The loop at `p` reads the section `hs`: it stores its headers in order and stops right after it. */
  predicate SectionRead(x: Bytes, p: nat, d: Dict, hs: seq<Header>)
  {
    p <= |x| && HeaderLoop(x, p, d) == (StoreAll(d, hs), p + SectionSize(hs))
  }

  /** The loop over a section, from what it does after the section's first line. */
  lemma HeaderLoopJoin(x: Bytes, p: nat, hs: seq<Header>, d: Dict, l: Line, q: nat, d': Dict)
    requires hs != [] && WellFormed(hs[0]) && p <= |x| && LineAt(x, p) == Some(l) && AsciiText(l.kept) == HeaderText(hs[0])
    requires q == p + l.used <= |x| && d' == Set(d, hs[0].0, hs[0].1)
    requires SectionSize(hs) == l.used + SectionSize(hs[1..])
    requires SectionRead(x, q, d', hs[1..])
    ensures SectionRead(x, p, d, hs)
  {
    var r := HeaderLoop(x, q, d');
    HeaderLoopKeeps(x, p, l, hs[0], d, q, r);
    SectionStored(hs, d, p, l.used, q, r);
  }

  /** An empty section is its empty line, which ends the loop. */
  lemma SectionEnds(x: Bytes, p: nat, hs: seq<Header>, d: Dict)
    requires hs == [] && WrittenAt(x, p, HeaderLines(hs) + "\r\n")
    ensures p <= |x| && HeaderLoop(x, p, d) == (StoreAll(d, hs), p + SectionSize(hs))
  {
    assert HeaderLines(hs) + "\r\n" == "" + "\r\n";
    var l := LineIn(x, p, "");
    HeaderLoopLine(x, p, l, d);
  }

  /** A written section's first line is its first header's, and the rest of the section follows it. */
  lemma FirstLine(x: Bytes, p: nat, hs: seq<Header>) returns (l: Line)
    requires hs != [] && WrittenAt(x, p, HeaderLines(hs) + "\r\n")
    requires forall i :: 0 <= i < |hs| ==> WellFormed(hs[i])
    ensures p <= |x| && LineAt(x, p) == Some(l) && AsciiText(l.kept) == HeaderText(hs[0])
    ensures SectionSize(hs) == l.used + SectionSize(hs[1..]) && WellFormed(hs[0])
    ensures WrittenAt(x, p + l.used, HeaderLines(hs[1..]) + "\r\n")
    ensures forall i :: 0 <= i < |hs[1..]| ==> WellFormed(hs[1..][i])
  {
    assert forall i :: 0 <= i < |hs[1..]| ==> hs[1..][i] == hs[i + 1];
    SectionIn(x, p, hs);
    WrittenPlain(hs[0]);
    l := LineIn(x, p, HeaderText(hs[0]));
  }

  /**
   * A request head as a client writes it is read back: the request line's
   * three parts, the headers stored in order (last value wins), and the
   * step stops right after the head.
   */
  lemma RequestRoundTrip(line: RequestLine, hs: seq<Header>, rest: Bytes)
    requires ' ' !in line.verb && ' ' !in line.path && line.verb != ""
    requires Printable(RequestLineText(line))
    requires forall i :: 0 <= i < |hs| ==> WellFormed(hs[i])
    ensures var text := RequestLineText(line);
            RequestAt(AsciiBytes(HeadText(text, hs)) + rest, 0)
            == Outcome(Some(Request(line.verb, line.path, line.version, StoreAll([], hs), None)), |text| + 2 + SectionSize(hs))
  {
    var text := RequestLineText(line);
    var x := HeadWritten(text, hs, rest);
    var n := |text| + 2;
    RequestLineRead(line);
    var l := LineIn(x, 0, text);
    HeaderLoopRoundTrip(x, n, hs, []);
    RequestAtKnown(x, l, text, line, n, HeaderLoop(x, n, []));
  }

  /** A written head holds its request line at the start and its header section right after it. */
  lemma HeadWritten(text: string, hs: seq<Header>, rest: Bytes) returns (x: Bytes)
    ensures x == AsciiBytes(HeadText(text, hs)) + rest
    ensures WrittenAt(x, 0, text + "\r\n") && WrittenAt(x, |text| + 2, HeaderLines(hs) + "\r\n")
  {
    x := Http1ParsingStep.HeadBytes(text, hs, rest);
    var n, m := |text| + 2, SectionSize(hs);
    assert x[0..n] == AsciiBytes(text + "\r\n");
    assert x[n..n + m] == AsciiBytes(HeaderLines(hs) + "\r\n");
  }

  /** The request whose line, read at the start, parses, with what the header loop after it comes back with. */
  lemma RequestAtKnown(x: Bytes, l: Line, text: string, line: RequestLine, n: nat, hd: (Dict, nat))
    requires LineAt(x, 0) == Some(l) && AsciiText(l.kept) == text
    requires !AllWhite(text) && ParseRequestLine(text) == Some(line)
    requires n == l.used <= |x| && HeaderLoop(x, n, []) == hd
    ensures RequestAt(x, 0) == Outcome(Some(Request(line.verb, line.path, line.version, hd.0, None)), hd.1)
  {
  }

  /** A blank request line, or one with fewer than three parts, hands nothing on, whatever follows it. */
  lemma NoRequestLine(text: string, rest: Bytes)
    requires Plain(text)
    requires AllWhite(text) || forall i, j :: 0 <= i < j < |text| ==> !(text[i] == ' ' && text[j] == ' ')
    ensures RequestAt(AsciiBytes(text + "\r\n") + rest, 0) == Outcome(None, |text| + 2)
  {
    assert AsciiBytes(text + "\r\n") + rest == [] + AsciiBytes(text + "\r\n") + rest;
    var l := LineReadAt([], text, rest);
    if !AllWhite(text) {
      MalformedRequestLine(text);
    }
  }
}
