/**
 * Http2PrefaceStep: on a connection classified as HTTP/2, the server side of
 * the connection preface of section 3.5 of RFC 7540. It reads the client's
 * 24 preface octets with a single read, then the client's first frame (a
 * SETTINGS frame, applied to the remote settings), writes its own SETTINGS
 * and a SETTINGS ACK, and reads one more frame, whatever it is. Any failure
 * is rethrown as one InvalidOperationException and `next` does not run.
 */
module Http2PrefaceStep {
  import opened Common
  import opened Channel
  import opened Http2Frame
  import opened Http2FrameIO
  import opened Http2Settings
  import opened HpackStaticTable
  import opened Http2Connection
  import opened NetworkContext
  import SF = SettingsFrame

  /** IsPrefaceValid: the octets are exactly the client preface. */
  method IsPrefaceValid(preface: Bytes) returns (valid: bool)
    ensures valid <==> preface == ClientPreface
  {
    if |preface| != |ClientPreface| {
      return false;
    }
    for i := 0 to |ClientPreface|
      invariant preface[..i] == ClientPreface[..i]
    {
      if preface[i] != ClientPreface[i] {
        return false;
      }
    }
    assert preface == preface[..|ClientPreface|];
    return true;
  }

  /** The parameters of the server's own SETTINGS frame, in the order the initializer lists them. */
  function LocalParameters(local: Values): SF.Parameters
  {
    [SF.Param(SF.SETTINGS_MAX_CONCURRENT_STREAMS, local.maxConcurrentStreams),
     SF.Param(SF.SETTINGS_INITIAL_WINDOW_SIZE, local.initialWindowSize),
     SF.Param(SF.SETTINGS_MAX_FRAME_SIZE, local.maxFrameSize)]
  }

  /** The server's SETTINGS frame. */
  function LocalSettingsFrame(local: Values): Frame
  {
    SF.ToFrameSpec(SF.SettingsFrame(LocalParameters(local)), false)
  }

  /** Both frames the server writes are accepted by the writer. */
  lemma HandshakeFramesWritable(local: Values)
    ensures WriteSpec(LocalSettingsFrame(local)).Ok? && WriteSpec(SF.AckFrame()).Ok?
    ensures LocalSettingsFrame(local).length == 18 && SF.AckFrame().length == 0
  {
    SF.ParseToFrame(SF.SettingsFrame(LocalParameters(local)), false);
    SF.ParseToFrame(SF.SettingsFrame([]), true);
    SF.EncodeUnits(LocalParameters(local));
    assert |SF.Encode(LocalParameters(local))| == 18 by {
      SF.ParametersBound(LocalParameters(local));
      assert LocalSettingsFrame(local).length == 6 * 3;
    }
  }

  /** The outcome of the handshake: result, remote settings, frames written, octets consumed. */
  datatype Exchange = Exchange(result: Result<()>, remote: Values, written: seq<Frame>, consumed: nat)

  /**
   * The client's first frame `f` applied to the remote settings: it must be
   * a SETTINGS frame that parses, and each parameter is applied in order
   * until one is refused. The flag says whether everything was applied.
   */
  function ApplyFirst(f: Frame, remote: Values): (Values, bool)
    requires f.Consistent()
  {
    if f.frameType != SETTINGS then (remote, false)
    else
      match SF.ParseSpec(f)
      case Err(_) => (remote, false)
      case Ok(sf) =>
        var (v, applied) := SF.ApplySpec(sf.parameters, remote);
        (v, applied.Ok?)
  }

  /**
   * What follows the client's first frame `f`, `after` being the octets
   * behind it: once `f` is applied, the two server frames are written and
   * one more frame must arrive, whose type and flags are not examined.
   */
  function SettingsExchange(f: Frame, after: Bytes, remote: Values, local: Values): (h: Exchange)
    requires f.Consistent()
    ensures h.consumed <= |after|
  {
    var (v, applied) := ApplyFirst(f, remote);
    if !applied then Exchange(Err(InvalidOperation), v, [], 0)
    else
      ReadConsumes(after);
      var (ack, m) := ReadSpec(after);
      var written := [LocalSettingsFrame(local), SF.AckFrame()];
      if ack.Err? || ack.value.None? then Exchange(Err(InvalidOperation), v, written, m)
      else Exchange(Ok(()), v, written, m)
  }

  /** The handshake after the preface, over the octets `rest` that follow it: the first frame must exist. */
  function AfterPreface(rest: Bytes, remote: Values, local: Values): (h: Exchange)
    ensures h.consumed <= |rest|
  {
    ReadConsumes(rest);
    var (first, n) := ReadSpec(rest);
    if first.Err? || first.value.None? then Exchange(Err(InvalidOperation), remote, [], n)
    else
      ReadFrameShape(rest);
      var h := SettingsExchange(first.value.value, rest[n..], remote, local);
      h.(consumed := n + h.consumed)
  }

  /**
   * The whole handshake over the octets `rem` on the stream, when the single
   * preface read returned `got` octets: fewer than 24, or octets other than
   * the preface, fail at once.
   */
  function HandshakeSpec(rem: Bytes, got: nat, remote: Values, local: Values): (h: Exchange)
    requires got <= 24 && got <= |rem|
    ensures h.consumed <= |rem|
  {
    if got < 24 then Exchange(Err(InvalidOperation), remote, [], got)
    else if rem[..24] != ClientPreface then Exchange(Err(InvalidOperation), remote, [], 24)
    else
      var h := AfterPreface(rem[24..], remote, local);
      h.(consumed := 24 + h.consumed)
  }

  /**
   * A successful handshake saw the preface and a SETTINGS frame, and wrote
   * exactly the server's SETTINGS and then a SETTINGS ACK.
   */
  lemma HandshakeSucceeded(rem: Bytes, got: nat, remote: Values, local: Values)
    requires got <= 24 && got <= |rem|
    requires HandshakeSpec(rem, got, remote, local).result.Ok?
    ensures got == 24 && rem[..24] == ClientPreface
    ensures ReadSpec(rem[24..]).0.Ok? && ReadSpec(rem[24..]).0.value.Some?
    ensures ReadSpec(rem[24..]).0.value.value.frameType == SETTINGS
    ensures HandshakeSpec(rem, got, remote, local).written == [LocalSettingsFrame(local), SF.AckFrame()]
  {
  }

  /** The first frame after the preface exists and is a SETTINGS frame. */
  predicate FirstIsSettings(rest: Bytes)
  {
    ReadSpec(rest).0.Ok? && ReadSpec(rest).0.value.Some? && ReadSpec(rest).0.value.value.frameType == SETTINGS
  }

  /** A handshake that fails before a SETTINGS frame arrives writes nothing and keeps the remote settings. */
  lemma EarlyFailureWritesNothing(rem: Bytes, got: nat, remote: Values, local: Values)
    requires got <= 24 && got <= |rem|
    requires got < 24 || rem[..24] != ClientPreface || !FirstIsSettings(rem[24..])
    ensures var h := HandshakeSpec(rem, got, remote, local);
      h.result == Err(InvalidOperation) && h.remote == remote && h.written == []
  {
  }

  /** After the preface octets the handshake goes on with what follows them. */
  lemma PrefaceThen(rest: Bytes, remote: Values, local: Values)
    ensures var h := AfterPreface(rest, remote, local);
      HandshakeSpec(ClientPreface + rest, 24, remote, local) == h.(consumed := 24 + h.consumed)
  {
    assert (ClientPreface + rest)[..24] == ClientPreface;
    assert (ClientPreface + rest)[24..] == rest;
  }

  /** A first frame written in full hands the octets behind it to the settings exchange. */
  lemma FirstFrameRead(f: Frame, after: Bytes, remote: Values, local: Values)
    requires WriteSpec(f).Ok? && f.streamId >= 0 && f.Consistent()
    ensures var h := SettingsExchange(f, after, remote, local);
      AfterPreface(WriteSpec(f).value + after, remote, local) == h.(consumed := |WriteSpec(f).value| + h.consumed)
  {
    ReadWritten(f, after);
    assert f.(streamId := Low31(f.streamId)) == f;
    assert (WriteSpec(f).value + after)[|WriteSpec(f).value|..] == after;
  }

  /** An accepted SETTINGS frame followed by any frame completes the exchange. */
  lemma SettingsAccepted(sf: SF.SettingsFrame, g: Frame, rest: Bytes, remote: Values, local: Values)
    requires SF.ApplySpec(sf.parameters, remote).1.Ok?
    requires WriteSpec(g).Ok?
    ensures SF.ToFrameSpec(sf, false).Consistent()
    ensures SettingsExchange(SF.ToFrameSpec(sf, false), WriteSpec(g).value + rest, remote, local)
      == Exchange(Ok(()), SF.ApplySpec(sf.parameters, remote).0, [LocalSettingsFrame(local), SF.AckFrame()], |WriteSpec(g).value|)
  {
    SF.ParseToFrame(sf, false);
    ReadWritten(g, rest);
  }

  /** The client's SETTINGS frame followed by any frame completes the exchange after the preface. */
  lemma SettingsThenFrame(sf: SF.SettingsFrame, g: Frame, rest: Bytes, remote: Values, local: Values)
    requires |SF.Encode(sf.parameters)| <= 0xFF_FFFF
    requires SF.ApplySpec(sf.parameters, remote).1.Ok?
    requires WriteSpec(g).Ok?
    ensures var settings := WriteSpec(SF.ToFrameSpec(sf, false));
      settings.Ok? &&
      AfterPreface(settings.value + WriteSpec(g).value + rest, remote, local)
        == Exchange(Ok(()), SF.ApplySpec(sf.parameters, remote).0, [LocalSettingsFrame(local), SF.AckFrame()],
                    |settings.value| + |WriteSpec(g).value|)
  {
    var f := SF.ToFrameSpec(sf, false);
    SettingsWritable(sf);
    var tail := WriteSpec(g).value + rest;
    SettingsAccepted(sf, g, rest, remote, local);
    FirstFrameRead(f, tail, remote, local);
    assert WriteSpec(f).value + WriteSpec(g).value + rest == WriteSpec(f).value + tail;
  }

  /** A client SETTINGS frame whose payload fits the 24-bit length field can be written. */
  lemma SettingsWritable(sf: SF.SettingsFrame)
    requires |SF.Encode(sf.parameters)| <= 0xFF_FFFF
    ensures var f := SF.ToFrameSpec(sf, false);
      WriteSpec(f).Ok? && f.streamId >= 0 && f.Consistent()
  {
    SF.ParseToFrame(sf, false);
  }

  /**
   * A client that sends the preface, a SETTINGS frame with acceptable values
   * and its acknowledgement completes the handshake: the server applies the
   * client's values, answers with its SETTINGS then an ACK, and consumes
   * exactly those octets.
   */
  lemma ClientHandshake(sf: SF.SettingsFrame, rest: Bytes, remote: Values, local: Values)
    requires |SF.Encode(sf.parameters)| <= 0xFF_FFFF
    requires SF.ApplySpec(sf.parameters, remote).1.Ok?
    ensures var settings := WriteSpec(SF.ToFrameSpec(sf, false));
      var ack := WriteSpec(SF.AckFrame());
      settings.Ok? && ack.Ok? &&
      HandshakeSpec(ClientPreface + settings.value + ack.value + rest, 24, remote, local)
        == Exchange(Ok(()), SF.ApplySpec(sf.parameters, remote).0, [LocalSettingsFrame(local), SF.AckFrame()],
                     24 + |settings.value| + |ack.value|)
  {
    HandshakeFramesWritable(local);
    SettingsThenFrame(sf, SF.AckFrame(), rest, remote, local);
    var settings := WriteSpec(SF.ToFrameSpec(sf, false)).value;
    var ack := WriteSpec(SF.AckFrame()).value;
    PrefaceThen(settings + ack + rest, remote, local);
    Regroup(ClientPreface, settings, ack, rest);
  }

  lemma Regroup(a: Bytes, b: Bytes, c: Bytes, d: Bytes)
    ensures a + b + c + d == a + (b + c + d)
  {
  }

  /** The preface read: a single read of up to 24 octets, then IsPrefaceValid when all 24 arrived. */
  method ReadPreface(channel: Channel) returns (valid: bool, ghost got: nat)
    requires channel.Valid()
    modifies channel
    ensures channel.Valid() && channel.input == old(channel.input) && channel.output == old(channel.output)
    ensures channel.disposed == old(channel.disposed)
    ensures var rem := old(channel.Remaining());
      && got <= 24 && got <= |rem| && (got == 0 <==> |rem| == 0) && channel.pos == old(channel.pos) + got
      && (valid <==> got == 24 && rem[..24] == ClientPreface)
  {
    ghost var rem := channel.Remaining();
    var prefaceBuffer := new byte[24];
    var read := channel.Read(prefaceBuffer, 0, 24);
    got := read;
    if read != 24 {
      return false, got;
    }
    assert prefaceBuffer[..] == rem[..24];
    valid := IsPrefaceValid(prefaceBuffer[..]);
  }

  /** The client's first frame: read, checked to be SETTINGS, parsed and applied to the remote settings. */
  method ReceiveSettings(reader: FrameReader, remoteSettings: Settings) returns (ok: bool)
    requires reader.Valid()
    modifies reader.stream, reader.headerBuffer, remoteSettings
    ensures reader.Valid() && reader.stream.input == old(reader.stream.input)
    ensures reader.stream.output == old(reader.stream.output) && reader.stream.disposed == old(reader.stream.disposed)
    ensures var (first, n) := ReadSpec(old(reader.stream.Remaining()));
      && reader.stream.pos == old(reader.stream.pos) + n
      && (first.Err? || first.value.None? ==> !ok && remoteSettings.Value() == old(remoteSettings.Value()))
      && (first.Ok? && first.value.Some? ==>
            first.value.value.Consistent() && (remoteSettings.Value(), ok) == ApplyFirst(first.value.value, old(remoteSettings.Value())))
  {
    ghost var rest := reader.stream.Remaining();
    var initialFrame := reader.ReadFrame();
    if initialFrame.Err? || initialFrame.value.None? {
      return false;
    }
    var f := initialFrame.value.value;
    ReadFrameShape(rest);
    if f.frameType != SETTINGS {
      return false;
    }
    var clientSettings := SF.Parse(f);
    if clientSettings.Err? {
      return false;
    }
    var applied := SF.ApplyTo(clientSettings.value, remoteSettings);
    ok := applied.Ok?;
  }

  /** The server's SETTINGS, then the SETTINGS ACK. */
  method SendSettings(writer: FrameWriter, local: Values)
    requires writer.Valid()
    modifies writer.stream, writer.headerBuffer
    ensures writer.Valid() && writer.stream.input == old(writer.stream.input) && writer.stream.pos == old(writer.stream.pos)
    ensures writer.stream.disposed == old(writer.stream.disposed)
    ensures writer.stream.output == old(writer.stream.output) + Sent([LocalSettingsFrame(local), SF.AckFrame()])
  {
    HandshakeFramesWritable(local);
    var ourSettings := SF.ToFrame(SF.SettingsFrame(LocalParameters(local)), false);
    var _ := writer.WriteFrame(ourSettings);
    var ack := SF.ToFrame(SF.SettingsFrame([]), true);
    var _ := writer.WriteFrame(ack);
    SentOne(ourSettings);
    SentOne(ack);
    SentAppend([ourSettings], [ack]);
    assert [ourSettings] + [ack] == [LocalSettingsFrame(local), SF.AckFrame()];
  }

  /**
   * The try block of InvokeAsync, over the parts of an initialised
   * connection: the preface, the client's SETTINGS, the server's two frames
   * and the final read. `got` is what the single preface read returned.
   */
  method Handshake(channel: Channel, reader: FrameReader, writer: FrameWriter, remoteSettings: Settings, local: Values)
      returns (r: Result<()>, ghost got: nat)
    requires reader.Valid() && writer.Valid() && reader.stream == channel && writer.stream == channel
    requires reader.headerBuffer != writer.headerBuffer
    modifies channel, reader.headerBuffer, writer.headerBuffer, remoteSettings
    ensures channel.Valid() && channel.input == old(channel.input) && channel.disposed == old(channel.disposed)
    ensures var rem := old(channel.Remaining());
      && got <= 24 && got <= |rem| && (got == 0 <==> |rem| == 0)
      && var h := HandshakeSpec(rem, got, old(remoteSettings.Value()), local);
      && r == h.result && remoteSettings.Value() == h.remote
      && channel.pos == old(channel.pos) + h.consumed
      && channel.output == old(channel.output) + Sent(h.written)
  {
    ghost var rem := channel.Remaining();
    var valid;
    valid, got := ReadPreface(channel);
    if !valid {
      return Err(InvalidOperation), got;
    }
    assert channel.Remaining() == rem[24..];
    r := AfterPrefaceRun(channel, reader, writer, remoteSettings, local);
  }

  /**
   * The try block of InvokeAsync once the preface was read: the client's
   * SETTINGS, the server's two frames and the final read, as AfterPreface
   * says.
   */
  method AfterPrefaceRun(channel: Channel, reader: FrameReader, writer: FrameWriter, remoteSettings: Settings, local: Values)
      returns (r: Result<()>)
    requires reader.Valid() && writer.Valid() && reader.stream == channel && writer.stream == channel
    requires reader.headerBuffer != writer.headerBuffer
    modifies channel, reader.headerBuffer, writer.headerBuffer, remoteSettings
    ensures channel.Valid() && channel.input == old(channel.input) && channel.disposed == old(channel.disposed)
    ensures var h := AfterPreface(old(channel.Remaining()), old(remoteSettings.Value()), local);
      && r == h.result && remoteSettings.Value() == h.remote
      && channel.pos == old(channel.pos) + h.consumed
      && channel.output == old(channel.output) + Sent(h.written)
  {
    ghost var rest := channel.Remaining();
    var ok := ReceiveSettings(reader, remoteSettings);
    if !ok {
      return Err(InvalidOperation);
    }
    ghost var n := ReadSpec(rest).1;
    ghost var after := channel.Remaining();
    assert after == rest[n..];
    SendSettings(writer, local);
    var ackFrame := reader.ReadFrame();
    if ackFrame.Err? || ackFrame.value.None? {
      return Err(InvalidOperation);
    }
    r := Ok(());
  }

  /**
   * InvokeAsync: a connection not classified as HTTP/2 under "protocol" only
   * runs `next`. Otherwise a new server connection is initialised over the
   * context's stream and the handshake runs; on success the connection is
   * stored under "http2" and `next` runs once, on failure an
   * InvalidOperationException escapes and `next` does not run.
   */
  method InvokeAsync(ctx: NetworkContext, huffman: Bytes -> HString) returns (r: Result<()>, nexts: nat, ghost got: nat, ghost conn: Http2Connection?)
    requires ctx.connection.Valid()
    modifies ctx, ctx.connection
    ensures ctx.connection == old(ctx.connection) && ctx.connection.Valid()
    ensures ctx.connection.input == old(ctx.connection.input) && ctx.connection.disposed == old(ctx.connection.disposed)
    ensures !HasProtocol(old(ctx.items), "protocol", Http2) ==>
      r == Ok(()) && nexts == 1 && ctx.items == old(ctx.items)
      && ctx.connection.pos == old(ctx.connection.pos) && ctx.connection.output == old(ctx.connection.output)
    ensures HasProtocol(old(ctx.items), "protocol", Http2) ==>
      var rem := old(ctx.connection.Remaining());
      && got <= 24 && got <= |rem| && (got == 0 <==> |rem| == 0)
      && var h := HandshakeSpec(rem, got, Defaults, Defaults);
      && r == h.result
      && ctx.connection.pos == old(ctx.connection.pos) + h.consumed
      && ctx.connection.output == old(ctx.connection.output) + Sent(h.written)
      && (r.Ok? ==>
            && nexts == 1 && conn != null && fresh(conn)
            && ctx.items == old(ctx.items)["http2" := Http2Item(conn)]
            && conn.Attached() && conn.handshakeComplete && conn.isServer && conn.nextStreamId == 2
            && conn.streams == map[] && conn.reader.stream == ctx.connection
            && conn.remoteSettings.Value() == h.remote && conn.decoder.huffman == huffman)
      && (r.Err? ==> r == Err(InvalidOperation) && nexts == 0 && ctx.items == old(ctx.items))
  {
    if !HasProtocol(ctx.items, "protocol", Http2) {
      return Ok(()), 1, 0, null;
    }
    var connection;
    r, got, connection := Establish(ctx.connection, huffman);
    conn := connection;
    if r.Err? {
      return r, 0, got, conn;
    }
    ctx.items := ctx.items["http2" := Http2Item(connection)];
    nexts := 1;
  }

  /**
   * The HTTP/2 branch of InvokeAsync up to the item it records: a server
   * connection attached to the network stream, the handshake over it, and
   * the completion flag set when the handshake went through.
   */
  method Establish(networkStream: Channel, huffman: Bytes -> HString) returns (r: Result<()>, ghost got: nat, conn: Http2Connection)
    requires networkStream.Valid()
    modifies networkStream
    ensures networkStream.Valid() && networkStream.input == old(networkStream.input) && networkStream.disposed == old(networkStream.disposed)
    ensures var rem := old(networkStream.Remaining());
      && got <= 24 && got <= |rem| && (got == 0 <==> |rem| == 0)
      && var h := HandshakeSpec(rem, got, Defaults, Defaults);
      && r == h.result
      && networkStream.pos == old(networkStream.pos) + h.consumed
      && networkStream.output == old(networkStream.output) + Sent(h.written)
      && (r.Ok? ==> conn.remoteSettings.Value() == h.remote)
    ensures fresh(conn) && conn.Attached() && conn.handshakeComplete == r.Ok? && conn.isServer && conn.nextStreamId == 2
    ensures conn.streams == map[] && conn.reader.stream == networkStream && conn.decoder.huffman == huffman
  {
    conn := new Http2Connection(huffman);
    conn.Initialize(networkStream, true);
    r, got := Handshake(networkStream, conn.reader, conn.writer, conn.remoteSettings, conn.localSettings.Value());
    if r.Ok? {
      conn.handshakeComplete := true;
    }
  }
}
