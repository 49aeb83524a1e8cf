/**
 * Protocol sniffing (WRM.HTTP.ProtocolDetection): like the WRM.Core step,
 * but without a TLS class, and the HTTP/1 method prefix is compared with
 * the octets' ASCII text ignoring case; the protocol goes under
 * "HTTP_PROTOCOL".
 */
module HttpProtocolDetection {
  import opened Common
  import opened Channel
  import opened PeekStreams
  import opened NetworkContext
  import ProtocolDetection

  const PeekSize: nat := 32

  /** At least 4 octets whose ASCII text begins with "GET ", "POST", "HEAD" or "CONN", ignoring case. */
  predicate IsMethodStart(b: Bytes)
  {
    var text := AsciiText(b);
    |b| >= 4
    && (StartsWithIgnoreCase(text, "GET ") || StartsWithIgnoreCase(text, "POST")
        || StartsWithIgnoreCase(text, "HEAD") || StartsWithIgnoreCase(text, "CONN"))
  }

  function Detect(b: Bytes): Protocol
  {
    if ProtocolDetection.IsPreface(b) then Http2
    else if IsMethodStart(b) then Http1
    else Unknown
  }

  /** The preface does not read as a method prefix, whatever the case. */
  lemma PrefaceNotMethod(b: Bytes)
    requires ProtocolDetection.IsPreface(b)
    ensures !IsMethodStart(b)
  {
    PrefaceStart(b);
    var text := AsciiText(b);
    assert text[0] == 'P' && text[1] == 'R';
    assert Lower(text[..4])[0] == 'p' && Lower(text[..4])[1] == 'r';
    assert Lower("POST")[1] == 'o';
    assert Lower("GET ")[0] == 'g' && Lower("HEAD")[0] == 'h' && Lower("CONN")[0] == 'c';
  }

  /** A TLS record's first octet, 0x16, is no letter, so it does not read as a method prefix. */
  lemma TlsNotMethod(b: Bytes)
    requires ProtocolDetection.IsTlsRecord(b)
    ensures !ProtocolDetection.IsPreface(b) && !IsMethodStart(b)
  {
    ProtocolDetection.PatternsDisjoint(b);
    var text := AsciiText(b);
    assert text[0] == 0x16 as char;
    if |b| >= 4 {
      assert Lower(text[..4])[0] == 0x16 as char;
      assert Lower("POST")[0] == 'p';
      assert Lower("GET ")[0] == 'g' && Lower("HEAD")[0] == 'h' && Lower("CONN")[0] == 'c';
    }
  }

  lemma PrefaceStart(b: Bytes)
    requires ProtocolDetection.IsPreface(b)
    ensures b[0] == 0x50 && b[1] == 0x52
  {
    ProtocolDetection.Http2FrameIO.ClientPrefaceText();
    assert b[0] == b[..24][0] && b[1] == b[..24][1];
  }

  /**
   * Each class is chosen exactly when its own pattern matches; there is no
   * TLS class, so a TLS record header is Unknown.
   */
  lemma DetectExact(b: Bytes)
    ensures Detect(b) == Http2 <==> ProtocolDetection.IsPreface(b)
    ensures Detect(b) == Http1 <==> IsMethodStart(b)
    ensures Detect(b) != Tls
    ensures ProtocolDetection.IsTlsRecord(b) ==> Detect(b) == Unknown
  {
    if ProtocolDetection.IsPreface(b) {
      PrefaceNotMethod(b);
    }
    if ProtocolDetection.IsTlsRecord(b) {
      TlsNotMethod(b);
    }
  }

  /** Octets equal to an ASCII literal read back as that literal, so they match it ignoring case too. */
  lemma ExactIgnoringCase(b: Bytes, s: string)
    requires forall i :: 0 <= i < |s| ==> s[i] as int < 128
    requires ProtocolDetection.BeginsWith(b, s)
    ensures StartsWithIgnoreCase(AsciiText(b), s)
  {
    var text := AsciiText(b);
    forall i | 0 <= i < |s|
      ensures text[i] == s[i]
    {
      assert b[i] == b[..|s|][i] == Octets(s)[i];
    }
    assert text[..|s|] == s;
  }

  /** Every request the case-sensitive classifier calls HTTP/1 is HTTP/1 here too. */
  lemma CaseSensitiveIncluded(b: Bytes)
    requires ProtocolDetection.IsMethodStart(b)
    ensures Detect(b) == Http1
  {
    ProtocolDetection.PatternsDisjoint(b);
    if ProtocolDetection.BeginsWith(b, "GET ") {
      ExactIgnoringCase(b, "GET ");
    } else if ProtocolDetection.BeginsWith(b, "POST") {
      ExactIgnoringCase(b, "POST");
    } else if ProtocolDetection.BeginsWith(b, "HEAD") {
      ExactIgnoringCase(b, "HEAD");
    } else {
      ExactIgnoringCase(b, "CONN");
    }
  }

  /**
   * InvokeAsync: one read of up to 32 octets; the protocol is stored under
   * "HTTP_PROTOCOL" and the original stream under "original-stream"; the
   * connection is replaced by a WrappedConnection whose stream is a peek
   * stream over exactly the octets read, so the later steps read everything
   * the peer sent from its start, the sniffed octets first; `next` is
   * called once.
   */
  method InvokeAsync(ctx: NetworkContext) returns (nexts: nat)
    requires ctx.connection.Valid()
    modifies ctx, ctx.connection
    ensures var original := old(ctx.connection);
      original.Valid() && original.input == old(original.input) && original.output == old(original.output)
      && original.disposed == old(original.disposed) && original.pos >= old(original.pos)
      && var read := original.input[old(original.pos)..original.pos];
      |read| <= PeekSize && (read == [] <==> old(original.pos) == |original.input|)
      && ctx.items == old(ctx.items)["HTTP_PROTOCOL" := ProtocolItem(Detect(read))]["original-stream" := StreamItem(original)]
      && ctx.peek.Some? && fresh(ctx.peek.value) && ctx.peek.value.Valid()
      && ctx.peek.value.inner == original && ctx.peek.value.prefix == read
      && ctx.peek.value.Delivered() == [] && ctx.peek.value.Whole() == old(original.Remaining())
    ensures fresh(ctx.connection) && ctx.connection.Valid() && ctx.connection.pos == 0
    ensures ctx.connection.input == ctx.peek.value.Whole() == old(ctx.connection.Remaining())
    ensures ctx.connection.output == old(ctx.connection.output) && ctx.connection.disposed == old(ctx.connection.disposed)
    ensures nexts == 1
  {
    var stream := ctx.connection;
    var buffer := new byte[PeekSize](_ => 0);
    var read := stream.Read(buffer, 0, PeekSize);
    var octets := buffer[..read];
    assert octets == stream.input[old(stream.pos)..stream.pos];
    var protocol := Detect(octets);
    ctx.items := ctx.items["HTTP_PROTOCOL" := ProtocolItem(protocol)];
    ctx.items := ctx.items["original-stream" := StreamItem(stream)];
    var peek := new ReplayStream(stream, octets);
    assert stream.input[old(stream.pos)..] == octets + stream.input[stream.pos..];
    ctx.connection := Wrapped(stream, octets + stream.input[stream.pos..]);
    ctx.peek := Some(peek);
    nexts := 1;
  }
}
