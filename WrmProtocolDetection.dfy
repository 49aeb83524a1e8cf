/**
 * Protocol sniffing (WRM/WRM.Core): when the context holds the TCP stream,
 * up to 25 octets are read, the preface marks HTTP/2 and a method prefix of
 * the ASCII text (ignoring case, "GET" without the space) marks HTTP/1,
 * checked after and overriding the preface; the TCP stream item is replaced
 * by a splicing peek stream over the octets read.
 */
module WrmProtocolDetection {
  import opened Common
  import opened Channel
  import opened PeekStreams
  import opened NetworkContext
  import ProtocolDetection

  const PeekSize: nat := 25

  /** The ASCII text begins with "GET", "POST", "HEAD" or "CONN", ignoring case; no length is checked first. */
  predicate IsMethodText(b: Bytes)
  {
    var text := AsciiText(b);
    StartsWithIgnoreCase(text, "GET") || StartsWithIgnoreCase(text, "POST")
    || StartsWithIgnoreCase(text, "HEAD") || StartsWithIgnoreCase(text, "CONN")
  }

  /** The classification InvokeAsync computes inline: Http2 for the preface, then Http1 for a method prefix, whichever came first. */
  function Classify(b: Bytes): Protocol
  {
    var protocol := if ProtocolDetection.IsPreface(b) then Http2 else Unknown;
    if IsMethodText(b) then Http1 else protocol
  }

  /** The static Detect: the preface first, then the method prefix. */
  function Detect(b: Bytes): Protocol
  {
    if ProtocolDetection.IsPreface(b) then Http2
    else if IsMethodText(b) then Http1
    else Unknown
  }

  lemma PrefaceNotMethod(b: Bytes)
    requires ProtocolDetection.IsPreface(b)
    ensures !IsMethodText(b)
  {
    ProtocolDetection.Http2FrameIO.ClientPrefaceText();
    assert b[0] == b[..24][0] && b[1] == b[..24][1];
    var text := AsciiText(b);
    assert text[0] == 'P' && text[1] == 'R';
    assert Lower(text[..3])[0] == 'p' && Lower(text[..4])[0] == 'p' && Lower(text[..4])[1] == 'r';
    assert Lower("POST")[1] == 'o';
    assert Lower("GET")[0] == 'g' && Lower("HEAD")[0] == 'h' && Lower("CONN")[0] == 'c';
  }

  /**
   * The override in InvokeAsync never fires on a preface, so the inline
   * classification and the static Detect agree, and each class is chosen
   * exactly when its pattern matches.
   */
  lemma InlineIsDetect(b: Bytes)
    ensures Classify(b) == Detect(b)
    ensures Detect(b) == Http2 <==> ProtocolDetection.IsPreface(b)
    ensures Detect(b) == Http1 <==> IsMethodText(b)
  {
    if ProtocolDetection.IsPreface(b) {
      PrefaceNotMethod(b);
    }
  }

  /** The inline classification of InvokeAsync: the preface check, then the overriding method check. */
  method ClassifyInline(octets: Bytes) returns (protocol: Protocol)
    ensures protocol == Detect(octets)
  {
    protocol := Unknown;
    if |octets| >= 24 && octets[..24] == ProtocolDetection.Http2FrameIO.ClientPreface {
      protocol := Http2;
    }
    if IsMethodText(octets) {
      protocol := Http1;
    }
    InlineIsDetect(octets);
  }

  /**
   * The read and the wrap: up to 25 octets are read, classified, and put in
   * front of the stream by a peek stream; `view` is the stream that peek
   * stream reads as.
   */
  method Sniff(stream: Channel) returns (protocol: Protocol, splice: SpliceStream, view: Channel)
    requires stream.Valid()
    modifies stream
    ensures stream.Valid() && stream.input == old(stream.input) && stream.output == old(stream.output)
    ensures stream.disposed == old(stream.disposed) && old(stream.pos) <= stream.pos
    ensures var read := stream.input[old(stream.pos)..stream.pos];
      |read| <= PeekSize && (read == [] <==> old(stream.pos) == |stream.input|)
      && protocol == Detect(read)
      && fresh(splice) && splice.Valid() && splice.inner == stream && splice.prefix == read
      && splice.Delivered() == [] && splice.Whole() == old(stream.Remaining())
    ensures fresh(view) && view.Valid() && view.pos == 0 && view.input == old(stream.Remaining())
    ensures view.output == stream.output && view.disposed == stream.disposed
  {
    var buffer := new byte[PeekSize](_ => 0);
    var read := stream.Read(buffer, 0, PeekSize);
    var octets := buffer[..read];
    assert octets == stream.input[old(stream.pos)..stream.pos];
    protocol := ClassifyInline(octets);
    splice := new SpliceStream(stream, octets);
    assert stream.input[old(stream.pos)..] == octets + stream.input[stream.pos..];
    view := Wrapped(stream, octets + stream.input[stream.pos..]);
  }

  /**
   * InvokeAsync: without a TCP stream the protocol is Unknown and nothing
   * is read or wrapped; with one (the stream itself, or a peek stream
   * stored before), one read of up to 25 octets is classified and the
   * stream item is replaced by a peek stream over exactly those octets,
   * which later steps read from its start, the sniffed octets first. The
   * protocol is stored and `next` called once.
   */
  method InvokeAsync(ctx: NetworkContext) returns (nexts: nat)
    requires StreamOf(ctx.items).Some? ==> StreamOf(ctx.items).value.Valid()
    modifies ctx, Streams(ctx.items)
    ensures ctx.connection == old(ctx.connection) && ctx.peek == old(ctx.peek)
    ensures StreamOf(old(ctx.items)).None? ==> ctx.items == old(ctx.items)[HttpProtocolKey := ProtocolItem(Unknown)]
    ensures StreamOf(old(ctx.items)).Some? ==>
      var s := StreamOf(old(ctx.items)).value;
      s.Valid() && s.input == old(s.input) && s.output == old(s.output) && s.disposed == old(s.disposed)
      && old(s.pos) <= s.pos
      && var read := s.input[old(s.pos)..s.pos];
      |read| <= PeekSize && (read == [] <==> old(s.pos) == |s.input|)
      && TcpStreamKey in ctx.items && ctx.items[TcpStreamKey].SpliceItem?
      && ctx.items == old(ctx.items)[TcpStreamKey := ctx.items[TcpStreamKey]][HttpProtocolKey := ProtocolItem(Detect(read))]
      && var splice := ctx.items[TcpStreamKey].splice;
      fresh(splice) && splice.Valid() && splice.inner == s && splice.prefix == read
      && splice.Delivered() == [] && splice.Whole() == old(s.Remaining())
      && var view := ctx.items[TcpStreamKey].view;
      fresh(view) && view.Valid() && view.pos == 0 && view.input == splice.Whole()
      && view.output == s.output && view.disposed == s.disposed
    ensures nexts == 1
  {
    var protocol := Unknown;
    var found := StreamOf(ctx.items);
    if found.Some? {
      var splice, view;
      protocol, splice, view := Sniff(found.value);
      ctx.items := ctx.items[TcpStreamKey := SpliceItem(splice, view)];
    }
    ctx.items := ctx.items[HttpProtocolKey := ProtocolItem(protocol)];
    nexts := 1;
  }
}
