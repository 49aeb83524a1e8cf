/**
 * Protocol sniffing (WRM.Core): the first read of a connection, up to 32
 * octets, is classified as the HTTP/2 connection preface, a TLS handshake
 * record header (section 5.1 of RFC 8446), the start of an HTTP/1 request
 * line, or unknown; the connection is then wrapped so that later steps read
 * those octets again before the rest.
 */
module ProtocolDetection {
  import opened Common
  import opened Channel
  import opened PeekStreams
  import opened NetworkContext
  import Http2FrameIO

  const PeekSize: nat := 32

  /** The octets begin, byte for byte, with the ASCII literal `s` (the local `StartsWith`). */
  predicate BeginsWith(b: Bytes, s: string)
  {
    |s| <= |b| && b[..|s|] == Octets(s)
  }

  /** The first 24 octets are the HTTP/2 client connection preface. */
  predicate IsPreface(b: Bytes)
  {
    |b| >= 24 && b[..24] == Http2FrameIO.ClientPreface
  }

  /** A TLS record header: content type handshake (0x16), major version 3, minor version at most 4. */
  predicate IsTlsRecord(b: Bytes)
  {
    |b| >= 3 && b[0] == 0x16 && b[1] == 0x03 && b[2] <= 0x04
  }

  /** At least 4 octets that begin, case-sensitively, with "GET ", "POST", "HEAD" or "CONN". */
  predicate IsMethodStart(b: Bytes)
  {
    |b| >= 4 && (BeginsWith(b, "GET ") || BeginsWith(b, "POST") || BeginsWith(b, "HEAD") || BeginsWith(b, "CONN"))
  }

  /** Detect, over the octets the read returned: the preface first, then TLS, then HTTP/1. */
  function Detect(b: Bytes): Protocol
  {
    if IsPreface(b) then Http2
    else if IsTlsRecord(b) then Tls
    else if IsMethodStart(b) then Http1
    else Unknown
  }

  /** The three patterns start with different octets, so at most one of them matches. */
  lemma PatternsDisjoint(b: Bytes)
    ensures !(IsPreface(b) && IsTlsRecord(b))
    ensures !(IsPreface(b) && IsMethodStart(b))
    ensures !(IsTlsRecord(b) && IsMethodStart(b))
  {
    Http2FrameIO.ClientPrefaceText();
    if IsPreface(b) {
      assert b[0] == 0x50 && b[1] == 0x52;
      assert Octets("POST")[1] == 0x4f;
    }
    if IsMethodStart(b) {
      assert Octets("GET ")[0] == 0x47 && Octets("POST")[0] == 0x50;
      assert Octets("HEAD")[0] == 0x48 && Octets("CONN")[0] == 0x43;
      assert b[0] == b[..4][0];
    }
  }

  /**
   * The order of the checks does not matter: each class is chosen exactly
   * when its own pattern matches, and Unknown exactly when none does.
   */
  lemma DetectExact(b: Bytes)
    ensures Detect(b) == Http2 <==> IsPreface(b)
    ensures Detect(b) == Tls <==> IsTlsRecord(b)
    ensures Detect(b) == Http1 <==> IsMethodStart(b)
    ensures Detect(b) == Unknown <==> !IsPreface(b) && !IsTlsRecord(b) && !IsMethodStart(b)
  {
    PatternsDisjoint(b);
  }

  /** Detect looks at no more than the first 24 octets. */
  lemma DetectFirst24(b: Bytes, more: Bytes)
    requires |b| >= 24
    ensures Detect(b + more) == Detect(b)
  {
    var c := b + more;
    assert c[..24] == b[..24] && c[..3] == b[..3] && c[..4] == b[..4];
  }

  /**
   * InvokeAsync: one read of up to 32 octets; the protocol is stored under
   * "protocol" and the original stream under "original-stream"; the
   * connection is replaced by a WrappedConnection whose stream is a peek
   * stream over exactly the octets read, so the later steps read everything
   * the peer sent from its start, the sniffed octets first; `next` is
   * called once.
   */
  method InvokeAsync(ctx: NetworkContext) returns (nexts: nat)
    requires ctx.connection.Valid()
    modifies ctx, ctx.connection
    ensures var original := old(ctx.connection);
      original.Valid() && original.input == old(original.input) && original.output == old(original.output)
      && original.disposed == old(original.disposed) && original.pos >= old(original.pos)
      && var read := original.input[old(original.pos)..original.pos];
      |read| <= PeekSize && (read == [] <==> old(original.pos) == |original.input|)
      && ctx.items == old(ctx.items)["protocol" := ProtocolItem(Detect(read))]["original-stream" := StreamItem(original)]
      && ctx.peek.Some? && fresh(ctx.peek.value) && ctx.peek.value.Valid()
      && ctx.peek.value.inner == original && ctx.peek.value.prefix == read
      && ctx.peek.value.Delivered() == [] && ctx.peek.value.Whole() == old(original.Remaining())
    ensures fresh(ctx.connection) && ctx.connection.Valid() && ctx.connection.pos == 0
    ensures ctx.connection.input == ctx.peek.value.Whole() == old(ctx.connection.Remaining())
    ensures ctx.connection.output == old(ctx.connection.output) && ctx.connection.disposed == old(ctx.connection.disposed)
    ensures nexts == 1
  {
    var stream := ctx.connection;
    var buffer := new byte[PeekSize](_ => 0);
    var read := stream.Read(buffer, 0, PeekSize);
    var octets := buffer[..read];
    assert octets == stream.input[old(stream.pos)..stream.pos];
    var protocol := Detect(octets);
    ctx.items := ctx.items["protocol" := ProtocolItem(protocol)];
    ctx.items := ctx.items["original-stream" := StreamItem(stream)];
    var peek := new ReplayStream(stream, octets);
    assert stream.input[old(stream.pos)..] == octets + stream.input[stream.pos..];
    ctx.connection := Wrapped(stream, octets + stream.input[stream.pos..]);
    ctx.peek := Some(peek);
    nexts := 1;
  }
}
