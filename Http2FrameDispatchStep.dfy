/**
 * Http2FrameDispatchStep: once the handshake is complete, read frames until
 * the peer closes the stream and act on each one by its type, calling the
 * next step after every frame and once more at the end of the stream.
 *
 * What each handler does to the connection is stated by a function over a
 * ConnState (the stream table, the peer's settings, the HPACK decoder's
 * table) that also lists the frames the handler writes back; the methods
 * over the Http2Connection object are proved against those functions.
 */
module Http2FrameDispatchStep {
  import opened Common
  import opened Channel
  import opened Http2Frame
  import opened Http2FrameIO
  import opened Http2Settings
  import opened HpackStaticTable
  import opened HttpMessage
  import opened Http2Connection
  import opened NetworkContext
  import Dec = HpackDecoder
  import DataFrame
  import HeadersFrame
  import SF = SettingsFrame
  import RstStreamFrame

  /** What handling one frame does: its result, the new connection state and the frames written back. */
  datatype Outcome = Outcome(result: Result<()>, state: ConnState, written: seq<Frame>)

  /** The frame SendRstStreamAsync writes: the error code as four big-endian octets, no flags. */
  function RstFrame(streamId: int32, errorCode: uint32): (f: Frame)
    ensures f.Consistent() && WriteSpec(f).Ok?
  {
    Frame(4, RST_STREAM, 0, streamId, ToBE32(errorCode))
  }

  /** On a non-zero stream it is the frame RstStreamFrame.ToFrame builds, and it parses back to its code. */
  lemma RstFrameParses(streamId: int32, errorCode: uint32)
    requires streamId != 0
    ensures RstStreamFrame.ToFrame(RstStreamFrame.RstStreamFrame(errorCode), streamId) == Ok(RstFrame(streamId, errorCode))
    ensures RstStreamFrame.Parse(RstFrame(streamId, errorCode)) == Ok(RstStreamFrame.RstStreamFrame(errorCode))
  {
    RstStreamFrame.ParseToFrame(RstStreamFrame.RstStreamFrame(errorCode), streamId);
  }

  /** The answer to a PING: the same length and payload, the ACK flag alone, stream 0. */
  function PingAck(f: Frame): Frame
  {
    Frame(f.length, PING, ACK, 0, f.payload)
  }

  // ---------------------------------------------------------------------
  // Building the request from the decoded header list
  // ---------------------------------------------------------------------

  /** The three pseudo-headers the step keeps, and the regular headers in an OrdinalIgnoreCase dictionary. */
  datatype Collected = Collected(verb: string, path: string, authority: string, headers: Dict)

  /**
   * The loop over `headersFrame.Headers`: a name starting with ':' sets
   * `method`, `path` or `authority` when it is one of those three and is
   * dropped otherwise; any other name is stored with the indexer, so the
   * last value of a repeated name wins.
   */
  function Collect(fields: seq<HeaderField>): Collected
  {
    if |fields| == 0 then Collected("", "", "", [])
    else
      var c := Collect(fields[..|fields| - 1]);
      var name := Text(fields[|fields| - 1].name);
      var value := Text(fields[|fields| - 1].value);
      if StartsWith(name, ":") then
        if name == ":method" then c.(verb := value)
        else if name == ":path" then c.(path := value)
        else if name == ":authority" then c.(authority := value)
        else c
      else c.(headers := Set(c.headers, name, value))
  }

  /** The regular headers after a non-empty authority is stored as "Host". */
  function HeadersWithHost(c: Collected): Dict
  {
    if c.authority != "" then Set(c.headers, "Host", c.authority) else c.headers
  }

  /** The request HandleHeadersFrameAsync stores on the stream. */
  function RequestOf(fields: seq<HeaderField>): Request
  {
    var c := Collect(fields);
    Request(c.verb, c.path, "HTTP/2.0", CopyInto([], HeadersWithHost(c)), None)
  }

  // ---------------------------------------------------------------------
  // The handlers, as functions of the connection state
  // ---------------------------------------------------------------------

  /**
   * DATA: parse first (a malformed frame fails before the stream is
   * touched); the stream is then fetched or created. Unless it is Open or
   * HalfClosedLocal it is reset with STREAM_CLOSED (and stays in the table);
   * otherwise the data is appended to its body, and END_STREAM closes the
   * remote half.
   */
  function HandleDataSpec(s: ConnState, f: Frame): Outcome
  {
    match DataFrame.Parse(f)
    case Err(e) => Outcome(Err(e), s, [])
    case Ok(d) =>
      var streams := GetOrAdd(s.streams, f.streamId);
      var st := streams[f.streamId];
      if st.state != Open && st.state != HalfClosedLocal then
        Outcome(Ok(()), s.(streams := streams), [RstFrame(f.streamId, RstStreamFrame.STREAM_CLOSED)])
      else
        var body := (if st.body.Some? then st.body.value else []) + d.data;
        var st' :=
          if d.endStream then
            st.(body := Some(body), endStreamReceived := true, state := if st.state == HalfClosedLocal then Closed else HalfClosedRemote)
          else st.(body := Some(body));
        Outcome(Ok(()), s.(streams := streams[f.streamId := st']), [])
  }

  /**
   * HEADERS: decode with the connection's HPACK decoder (its table changes
   * even when the frame fails later), fetch or create the stream, open an
   * Idle one, store the request, mark the headers received, and on
   * END_STREAM close the remote half.
   */
  function HandleHeadersSpec(huffman: Bytes -> HString, s: ConnState, f: Frame): Outcome
    requires |f.payload| < TWO31
  {
    var (h, table) := HeadersFrame.ParseSpec(huffman, s.table, f);
    if h.Err? then Outcome(Err(h.failure), s.(table := table), [])
    else
      var streams := GetOrAdd(s.streams, f.streamId);
      var st := streams[f.streamId];
      var started := st.(state := if st.state == Idle then Open else st.state, request := Some(RequestOf(h.value.headers)), headersReceived := true);
      var st' := if f.EndStream() then started.(endStreamReceived := true, state := HalfClosedRemote) else started;
      Outcome(Ok(()), ConnState(streams[f.streamId := st'], s.remote, table), [])
  }

  /**
   * SETTINGS: an ACK is ignored; otherwise the parameters are parsed and
   * applied to the peer's settings in order, and an empty ACK is written.
   */
  function HandleSettingsSpec(s: ConnState, f: Frame): Outcome
    requires f.Consistent()
  {
    if f.Ack() then Outcome(Ok(()), s, [])
    else
      match SF.ParseSpec(f)
      case Err(e) => Outcome(Err(e), s, [])
      case Ok(sf) =>
        var (v, applied) := SF.ApplySpec(sf.parameters, s.remote);
        if applied.Err? then Outcome(applied, s.(remote := v), [])
        else Outcome(Ok(()), s.(remote := v), [SF.AckFrame()])
  }

  /** PING: an ACK is ignored; otherwise the frame is echoed with the ACK flag. */
  function HandlePingSpec(s: ConnState, f: Frame): Outcome
  {
    if f.Ack() then Outcome(Ok(()), s, []) else Outcome(Ok(()), s, [PingAck(f)])
  }

  /** RST_STREAM: the stream (created first if missing) is closed and removed. */
  function HandleRstSpec(s: ConnState, f: Frame): Outcome
  {
    Outcome(Ok(()), s.(streams := s.streams - {f.streamId}), [])
  }

  /**
   * DispatchFrameAsync on a frame the reader returned: the handler for its
   * type; WINDOW_UPDATE, GOAWAY, PRIORITY and unknown types change nothing.
   */
  function DispatchSpec(huffman: Bytes -> HString, s: ConnState, f: Frame): (o: Outcome)
    requires f.Consistent() && f.length < 0x100_0000
    ensures |o.written| <= 1
    ensures forall i :: 0 <= i < |o.written| ==> WriteSpec(o.written[i]).Ok?
  {
    if f.frameType == DATA then HandleDataSpec(s, f)
    else if f.frameType == HEADERS then HandleHeadersSpec(huffman, s, f)
    else if f.frameType == SETTINGS then
      SF.ParseToFrame(SF.SettingsFrame([]), true);
      HandleSettingsSpec(s, f)
    else if f.frameType == PING then HandlePingSpec(s, f)
    else if f.frameType == RST_STREAM then HandleRstSpec(s, f)
    else Outcome(Ok(()), s, [])
  }

  // ---------------------------------------------------------------------
  // What the handlers promise
  // ---------------------------------------------------------------------

  /** The stream GetOrCreateStream hands back for `id`. */
  function StreamAt(streams: StreamTable, id: int32): Http2Stream
  {
    if id in streams then streams[id] else NewStream(id)
  }

  /** DATA is accepted on a stream whose remote half is open: Open or HalfClosedLocal. */
  predicate Receiving(st: Http2Stream)
  {
    st.state == Open || st.state == HalfClosedLocal
  }

  /**
   * A DATA frame that parses, on a stream that is not receiving, is answered
   * with exactly one RST_STREAM carrying STREAM_CLOSED (code 5) on that
   * stream; the stream stays in the table with its body and state as they
   * were. A DATA frame writes something back only then.
   */
  lemma DataOnClosedStream(huffman: Bytes -> HString, s: ConnState, f: Frame)
    requires f.Consistent() && f.length < 0x100_0000 && f.frameType == DATA
    ensures var o := DispatchSpec(huffman, s, f);
            o.written != [] <==> DataFrame.Parse(f).Ok? && !Receiving(StreamAt(s.streams, f.streamId))
    ensures var o := DispatchSpec(huffman, s, f);
            o.written != [] ==>
              && o.result == Ok(()) && o.written == [RstFrame(f.streamId, 5)]
              && o.state == s.(streams := GetOrAdd(s.streams, f.streamId))
              && o.state.streams[f.streamId] == StreamAt(s.streams, f.streamId)
  {
  }

  /**
   * DATA on a receiving stream appends the payload's data to the body and
   * touches no other stream; END_STREAM closes the remote half.
   */
  lemma DataAppended(huffman: Bytes -> HString, s: ConnState, f: Frame)
    requires f.Consistent() && f.length < 0x100_0000 && f.frameType == DATA
    requires DataFrame.Parse(f).Ok? && Receiving(StreamAt(s.streams, f.streamId))
    ensures var o := DispatchSpec(huffman, s, f);
            var st := StreamAt(s.streams, f.streamId);
            var d := DataFrame.Parse(f).value;
            && o.result == Ok(()) && o.written == []
            && o.state.remote == s.remote && o.state.table == s.table
            && o.state.streams.Keys == s.streams.Keys + {f.streamId}
            && (forall k :: k in s.streams && k != f.streamId ==> o.state.streams[k] == s.streams[k])
            && o.state.streams[f.streamId].body == Some((if st.body.Some? then st.body.value else []) + d.data)
            && o.state.streams[f.streamId].state == (if !d.endStream then st.state else if st.state == HalfClosedLocal then Closed else HalfClosedRemote)
  {
  }

  /**
   * SETTINGS and PING with the ACK flag write nothing and change nothing.
   * Without it, a PING is echoed once with the same payload, the ACK flag
   * and stream 0, and a SETTINGS frame that is applied is acknowledged once
   * with an empty SETTINGS ACK; a SETTINGS frame that fails writes nothing.
   */
  lemma AckWritesNothing(huffman: Bytes -> HString, s: ConnState, f: Frame)
    requires f.Consistent() && f.length < 0x100_0000 && (f.frameType == SETTINGS || f.frameType == PING)
    ensures var o := DispatchSpec(huffman, s, f);
            f.Ack() ==> o == Outcome(Ok(()), s, [])
    ensures var o := DispatchSpec(huffman, s, f);
            !f.Ack() && f.frameType == PING ==>
              && o.result == Ok(()) && o.state == s && o.written == [PingAck(f)]
              && o.written[0].payload == f.payload && o.written[0].Ack() && o.written[0].streamId == 0
    ensures var o := DispatchSpec(huffman, s, f);
            !f.Ack() && f.frameType == SETTINGS ==>
              && (o.result.Ok? <==> o.written == [SF.AckFrame()])
              && (o.result.Err? <==> o.written == [])
              && o.state.streams == s.streams && o.state.table == s.table
  {
    if !f.Ack() && f.frameType == PING {
      assert PingAck(f).Ack() by {
        assert PingAck(f).flags == ACK;
      }
    }
  }

  /** RST_STREAM removes exactly its stream, and changes nothing else. */
  lemma RstRemovesStream(huffman: Bytes -> HString, s: ConnState, f: Frame)
    requires f.Consistent() && f.length < 0x100_0000 && f.frameType == RST_STREAM
    ensures var o := DispatchSpec(huffman, s, f);
            && o.result == Ok(()) && o.written == []
            && o.state.streams.Keys == s.streams.Keys - {f.streamId}
            && (forall k :: k in o.state.streams ==> o.state.streams[k] == s.streams[k])
            && o.state.remote == s.remote && o.state.table == s.table
  {
  }

  /** Every handler keeps each stream stored under its own id. */
  lemma DispatchWellKeyed(huffman: Bytes -> HString, s: ConnState, f: Frame)
    requires f.Consistent() && f.length < 0x100_0000 && WellKeyed(s.streams)
    ensures WellKeyed(DispatchSpec(huffman, s, f).state.streams)
  {
    GetOrAddWellKeyed(s.streams, f.streamId);
  }

  // ---------------------------------------------------------------------
  // The loop of InvokeAsync
  // ---------------------------------------------------------------------

  /** The end of the frame loop: its result, state, frames written, calls of `next`, and octets read. */
  datatype Run = Run(result: Result<()>, state: ConnState, written: seq<Frame>, nexts: nat, consumed: nat)

  /**
   * The loop over the octets left on the stream: at the end of the stream
   * `next` runs once and the loop ends; a read or handler failure ends it
   * with that failure; otherwise `next` runs after the frame is handled.
   */
  /** A run that had already written `written`, called `next` `nexts` times and read `consumed` octets before `run`. */
  function After(written: seq<Frame>, nexts: nat, consumed: nat, run: Run): Run
  {
    Run(run.result, run.state, written + run.written, nexts + run.nexts, consumed + run.consumed)
  }

  function RunSpec(huffman: Bytes -> HString, s: ConnState, rem: Bytes): (r: Run)
    ensures r.consumed <= |rem|
    decreases |rem|, 1
  {
    ReadConsumes(rem);
    var (fr, n) := ReadSpec(rem);
    match fr
    case Err(e) => Run(Err(e), s, [], 0, n)
    case Ok(None) => Run(Ok(()), s, [], 1, n)
    case Ok(Some(f)) =>
      ReadFrameShape(rem);
      RunTurn(huffman, s, f, rem[n..])
  }

  /** The loop from a frame just read, `rest` being the octets after it: dispatch, then `next`, then the rest. */
  function RunTurn(huffman: Bytes -> HString, s: ConnState, f: Frame, rest: Bytes): (r: Run)
    requires f.Consistent() && f.length < 0x100_0000
    ensures r.consumed <= 9 + f.length + |rest|
    decreases |rest|, 2
  {
    var o := DispatchSpec(huffman, s, f);
    if o.result.Err? then Run(o.result, o.state, o.written, 0, 9 + f.length)
    else After(o.written, 1, 9 + f.length, RunSpec(huffman, o.state, rest))
  }

  // ---------------------------------------------------------------------
  // The step over the connection object
  // ---------------------------------------------------------------------

  /** The handler keeps the connection's reader, writer and counters; its stream is only written to. */
  twostate predicate Kept(conn: Http2Connection)
    reads conn, conn.reader
    reads if conn.reader != null then {conn.reader.stream} else {}
  {
    && conn.Parts() == old(conn.Parts())
    && conn.reader != null
    && conn.reader.stream.input == old(conn.reader.stream.input)
    && conn.reader.stream.pos == old(conn.reader.stream.pos)
    && conn.reader.stream.disposed == old(conn.reader.stream.disposed)
  }

  /** SendRstStreamAsync. */
  method SendRstStream(conn: Http2Connection, streamId: int32, errorCode: uint32) returns (r: Result<()>)
    requires conn.Attached()
    modifies conn.writer.stream, conn.writer.headerBuffer
    ensures conn.Attached() && Kept(conn) && r == Ok(())
    ensures conn.reader.stream.output == old(conn.reader.stream.output) + Sent([RstFrame(streamId, errorCode)])
  {
    var payload := ToBE32(errorCode);
    assert Frame(4, RST_STREAM, 0, streamId, payload) == RstFrame(streamId, errorCode);
    SentOne(RstFrame(streamId, errorCode));
    var sent := conn.writer.WriteFrame(Frame(4, RST_STREAM, 0, streamId, payload));
    assert sent.Ok?;
    r := Ok(());
  }

  /** HandleDataFrameAsync. */
  method HandleDataFrame(conn: Http2Connection, f: Frame) returns (r: Result<()>)
    requires conn.Attached()
    modifies conn, conn.writer.stream, conn.writer.headerBuffer
    ensures conn.Attached() && Kept(conn)
    ensures var o := HandleDataSpec(old(conn.Snapshot()), f);
      r == o.result && conn.Snapshot() == o.state
      && conn.reader.stream.output == old(conn.reader.stream.output) + Sent(o.written)
  {
    var dataFrame := DataFrame.Parse(f);
    if dataFrame.Err? {
      return Err(dataFrame.failure);
    }
    var stream := conn.GetOrCreateStream(f.streamId);
    if stream.state != Open && stream.state != HalfClosedLocal {
      r := SendRstStream(conn, f.streamId, RstStreamFrame.STREAM_CLOSED);
      return;
    }
    var body := if stream.body.Some? then stream.body.value else [];
    stream := stream.(body := Some(body + dataFrame.value.data));
    if dataFrame.value.endStream {
      stream := stream.(endStreamReceived := true, state := if stream.state == HalfClosedLocal then Closed else HalfClosedRemote);
    }
    conn.streams := conn.streams[f.streamId := stream];
    r := Ok(());
  }

  /** The first loop of HandleHeadersFrameAsync: pseudo-headers and regular headers. */
  method CollectFields(fields: seq<HeaderField>) returns (c: Collected)
    ensures c == Collect(fields)
  {
    var verb, path, authority := "", "", "";
    var headers: Dict := [];
    for i := 0 to |fields|
      invariant Collect(fields[..i]) == Collected(verb, path, authority, headers)
    {
      assert fields[..i + 1][..i] == fields[..i];
      var name := Text(fields[i].name);
      var value := Text(fields[i].value);
      if StartsWith(name, ":") {
        if name == ":method" {
          verb := value;
        } else if name == ":path" {
          path := value;
        } else if name == ":authority" {
          authority := value;
        }
      } else {
        headers := Set(headers, name, value);
      }
    }
    assert fields[..|fields|] == fields;
    c := Collected(verb, path, authority, headers);
  }

  /** The second loop: `stream.Request.Headers[name] = value` for every collected header. */
  method CopyHeaders(headers: Dict) returns (copied: Dict)
    ensures copied == CopyInto([], headers)
  {
    copied := [];
    for i := 0 to |headers|
      invariant copied == CopyInto([], headers[..i])
    {
      assert headers[..i + 1][..i] == headers[..i];
      copied := Set(copied, headers[i].0, headers[i].1);
    }
    assert headers[..|headers|] == headers;
  }

  /** The request HandleHeadersFrameAsync builds from the decoded list. */
  method BuildRequest(fields: seq<HeaderField>) returns (request: Request)
    ensures request == RequestOf(fields)
  {
    var c := CollectFields(fields);
    var headers := c.headers;
    if c.authority != "" {
      headers := Set(headers, "Host", c.authority);
    }
    var copied := CopyHeaders(headers);
    request := Request(c.verb, c.path, "HTTP/2.0", copied, None);
  }

  /** HandleHeadersFrameAsync. */
  method HandleHeadersFrame(conn: Http2Connection, f: Frame) returns (r: Result<()>)
    requires conn.Attached() && |f.payload| < TWO31
    modifies conn, conn.decoder.table
    ensures conn.Attached() && Kept(conn)
    ensures var o := HandleHeadersSpec(conn.decoder.huffman, old(conn.Snapshot()), f);
      r == o.result && conn.Snapshot() == o.state
      && conn.reader.stream.output == old(conn.reader.stream.output) + Sent(o.written)
  {
    var headersFrame := HeadersFrame.Parse(f, conn.decoder);
    if headersFrame.Err? {
      return Err(headersFrame.failure);
    }
    var stream := conn.GetOrCreateStream(f.streamId);
    if stream.state == Idle {
      stream := stream.(state := Open);
    }
    var request := BuildRequest(headersFrame.value.headers);
    stream := stream.(request := Some(request), headersReceived := true);
    if f.EndStream() {
      stream := stream.(endStreamReceived := true, state := HalfClosedRemote);
    }
    conn.streams := conn.streams[f.streamId := stream];
    r := Ok(());
  }

  /** HandleSettingsFrameAsync. */
  method HandleSettingsFrame(conn: Http2Connection, f: Frame) returns (r: Result<()>)
    requires conn.Attached() && f.Consistent()
    modifies conn.remoteSettings, conn.writer.stream, conn.writer.headerBuffer
    ensures conn.Attached() && Kept(conn)
    ensures var o := HandleSettingsSpec(old(conn.Snapshot()), f);
      r == o.result && conn.Snapshot() == o.state
      && conn.reader.stream.output == old(conn.reader.stream.output) + Sent(o.written)
  {
    if f.Ack() {
      return Ok(());
    }
    var settings := SF.Parse(f);
    if settings.Err? {
      return Err(settings.failure);
    }
    r := SF.ApplyTo(settings.value, conn.remoteSettings);
    if r.Err? {
      return;
    }
    var ack := SF.ToFrame(SF.SettingsFrame([]), true);
    SF.ParseToFrame(SF.SettingsFrame([]), true);
    SentOne(ack);
    var sent := conn.writer.WriteFrame(ack);
    assert sent.Ok?;
    r := Ok(());
  }

  /** HandlePingFrameAsync. */
  method HandlePingFrame(conn: Http2Connection, f: Frame) returns (r: Result<()>)
    requires conn.Attached() && f.Consistent() && f.length < 0x100_0000
    modifies conn.writer.stream, conn.writer.headerBuffer
    ensures conn.Attached() && Kept(conn)
    ensures var o := HandlePingSpec(old(conn.Snapshot()), f);
      r == o.result && conn.Snapshot() == o.state
      && conn.reader.stream.output == old(conn.reader.stream.output) + Sent(o.written)
  {
    if f.Ack() {
      return Ok(());
    }
    var pong := Frame(f.length, PING, ACK, 0, f.payload);
    SentOne(pong);
    var sent := conn.writer.WriteFrame(pong);
    assert sent.Ok?;
    r := Ok(());
  }

  /** HandleRstStreamFrameAsync. */
  method HandleRstStreamFrame(conn: Http2Connection, f: Frame) returns (r: Result<()>)
    requires conn.Attached()
    modifies conn
    ensures conn.Attached() && Kept(conn)
    ensures var o := HandleRstSpec(old(conn.Snapshot()), f);
      r == o.result && conn.Snapshot() == o.state
      && conn.reader.stream.output == old(conn.reader.stream.output) + Sent(o.written)
  {
    var stream := conn.GetOrCreateStream(f.streamId);
    stream := stream.(state := Closed);
    conn.streams := conn.streams[f.streamId := stream];
    var _ := conn.RemoveStream(f.streamId);
    r := Ok(());
  }

  /** DispatchFrameAsync. */
  method DispatchFrame(conn: Http2Connection, f: Frame) returns (r: Result<()>)
    requires conn.Attached() && f.Consistent() && f.length < 0x100_0000
    modifies conn, conn.remoteSettings, conn.decoder.table, conn.writer.stream, conn.writer.headerBuffer
    ensures conn.Attached() && Kept(conn)
    ensures var o := DispatchSpec(conn.decoder.huffman, old(conn.Snapshot()), f);
      r == o.result && conn.Snapshot() == o.state
      && conn.reader.stream.output == old(conn.reader.stream.output) + Sent(o.written)
  {
    if f.frameType == DATA {
      r := HandleDataFrame(conn, f);
    } else if f.frameType == HEADERS {
      r := HandleHeadersFrame(conn, f);
    } else if f.frameType == SETTINGS {
      r := HandleSettingsFrame(conn, f);
    } else if f.frameType == PING {
      r := HandlePingFrame(conn, f);
    } else if f.frameType == RST_STREAM {
      r := HandleRstStreamFrame(conn, f);
    } else {
      r := Ok(());
    }
  }

  /** The reader returns a frame that fits the dispatcher's requirements. */
  lemma ReadFrameFits(rem: Bytes, f: Frame)
    requires ReadSpec(rem).0 == Ok(Some(f))
    ensures f.Consistent() && f.length < 0x100_0000 && ReadSpec(rem).1 == 9 + f.length <= |rem|
  {
    ReadFrameShape(rem);
  }

  /** A turn of the loop whose handler fails ends the loop. */
  lemma RunFrameFails(huffman: Bytes -> HString, s: ConnState, rem: Bytes, f: Frame, o: Outcome)
    requires ReadSpec(rem).0 == Ok(Some(f)) && f.Consistent() && f.length < 0x100_0000
    requires o == DispatchSpec(huffman, s, f) && o.result.Err?
    ensures RunSpec(huffman, s, rem) == Run(o.result, o.state, o.written, 0, ReadSpec(rem).1)
  {
    ReadFrameShape(rem);
    assert RunSpec(huffman, s, rem) == RunTurn(huffman, s, f, rem[9 + f.length..]);
  }

  /** A turn of the loop whose handler succeeds goes on with the rest of the octets. */
  lemma RunFrameContinues(huffman: Bytes -> HString, s: ConnState, rem: Bytes, f: Frame, o: Outcome)
    requires ReadSpec(rem).0 == Ok(Some(f)) && f.Consistent() && f.length < 0x100_0000
    requires o == DispatchSpec(huffman, s, f) && o.result.Ok?
    ensures ReadSpec(rem).1 <= |rem|
    ensures RunSpec(huffman, s, rem) == After(o.written, 1, ReadSpec(rem).1, RunSpec(huffman, o.state, rem[ReadSpec(rem).1..]))
  {
    ReadFrameShape(rem);
    assert RunSpec(huffman, s, rem) == RunTurn(huffman, s, f, rem[9 + f.length..]);
  }

  /** The last turn of the loop: a failed read, or the end of the stream. */
  lemma RunEnd(huffman: Bytes -> HString, s: ConnState, rem: Bytes)
    requires ReadSpec(rem).0.Err? || ReadSpec(rem).0 == Ok(None)
    ensures RunSpec(huffman, s, rem) ==
      if ReadSpec(rem).0.Err? then Run(Err(ReadSpec(rem).0.failure), s, [], 0, ReadSpec(rem).1)
      else Run(Ok(()), s, [], 1, ReadSpec(rem).1)
  {
  }

  /** The frames the reader returns, one after the other, before the end of the stream or a read failure. */
  function FrameCount(rem: Bytes): nat
    decreases |rem|
  {
    ReadConsumes(rem);
    var (fr, n) := ReadSpec(rem);
    if fr.Ok? && fr.value.Some? then 1 + FrameCount(rem[n..]) else 0
  }

  /**
   * `next` runs once after every frame the loop dispatched: when the loop
   * ends without failure, it has read every octet and run `next` once per
   * frame on the stream and once more at its end; when it fails, `next`
   * ran at most once per frame read.
   */
  lemma {:induction false} NextsCountFrames(huffman: Bytes -> HString, s: ConnState, rem: Bytes)
    ensures var r := RunSpec(huffman, s, rem);
            && (r.result.Ok? ==> r.nexts == FrameCount(rem) + 1 && r.consumed == |rem|)
            && (r.result.Err? ==> r.nexts <= FrameCount(rem))
    decreases |rem|
  {
    ReadConsumes(rem);
    var (fr, n) := ReadSpec(rem);
    if fr.Ok? && fr.value.Some? {
      var f := fr.value.value;
      ReadFrameFits(rem, f);
      var o := DispatchSpec(huffman, s, f);
      if o.result.Err? {
        RunFrameFails(huffman, s, rem, f, o);
      } else {
        RunFrameContinues(huffman, s, rem, f, o);
        NextsCountFrames(huffman, o.state, rem[n..]);
      }
    } else {
      RunEnd(huffman, s, rem);
    }
  }

  /** The frame loop keeps every stream stored under its own id. */
  lemma {:induction false} RunWellKeyed(huffman: Bytes -> HString, s: ConnState, rem: Bytes)
    requires WellKeyed(s.streams)
    ensures WellKeyed(RunSpec(huffman, s, rem).state.streams)
    decreases |rem|
  {
    ReadConsumes(rem);
    var (fr, n) := ReadSpec(rem);
    if fr.Ok? && fr.value.Some? {
      var f := fr.value.value;
      ReadFrameFits(rem, f);
      var o := DispatchSpec(huffman, s, f);
      DispatchWellKeyed(huffman, s, f);
      if o.result.Err? {
        RunFrameFails(huffman, s, rem, f, o);
      } else {
        RunFrameContinues(huffman, s, rem, f, o);
        RunWellKeyed(huffman, o.state, rem[n..]);
      }
    } else {
      RunEnd(huffman, s, rem);
    }
  }

  /** A run of the frame loop from a connection state and the octets left, as a value a method can be handed. */
  type RunOf = (ConnState, Bytes) -> Run

  /**
   * `run` is the frame loop for the Huffman decoder `huffman`. The
   * quantifier fires only on an application of RunSpec, so the loop that
   * speaks of `run` alone does not unfold a turn of the specification.
   */
  ghost predicate RunsAs(run: RunOf, huffman: Bytes -> HString)
  {
    forall s: ConnState, rem: Bytes {:trigger RunSpec(huffman, s, rem)} :: run(s, rem) == RunSpec(huffman, s, rem)
  }

  lemma RunIs(run: RunOf, huffman: Bytes -> HString, s: ConnState, rem: Bytes)
    requires RunsAs(run, huffman)
    ensures run(s, rem) == RunSpec(huffman, s, rem)
  {
  }

  /** After(...) composes. */
  lemma AfterAfter(w1: seq<Frame>, n1: nat, c1: nat, w2: seq<Frame>, n2: nat, c2: nat, run: Run)
    ensures After(w1, n1, c1, After(w2, n2, c2, run)) == After(w1 + w2, n1 + n2, c1 + c2, run)
  {
  }

  /** A turn that ends the run, or goes on to `later`, adds up with the turns before it to the same run `total`. */
  lemma TurnAdds(total: Run, here: Run, written: seq<Frame>, nexts: nat, consumed: nat, done: bool, r: Result<()>,
                 s': ConnState, turn: seq<Frame>, called: nat, c: nat, later: Run, written': seq<Frame>, nexts': nat, consumed': nat)
    requires total == After(written, nexts, consumed, here)
    requires done ==> here == Run(r, s', turn, called, c)
    requires !done ==> here == After(turn, called, c, later)
    requires written' == written + turn && nexts' == nexts + called && consumed' == consumed + c
    ensures done ==> total == Run(r, s', written', nexts', consumed')
    ensures !done ==> total == After(written', nexts', consumed', later)
  {
    if !done {
      AfterAfter(written, nexts, consumed, turn, called, c, later);
    }
  }

  /**
   * One turn of the loop, from the connection state `s` with the octets
   * `rem` left on the stream: read a frame and dispatch it. `done` when the
   * loop ends here (end of stream, or a failure); `nexts` counts the calls
   * of `next` this turn makes; `written` are the frames written back, and
   * `s'`, `rem'` the state and octets left afterwards.
   */
  method DispatchNext(conn: Http2Connection, ghost run: RunOf, ghost s: ConnState, ghost rem: Bytes)
      returns (done: bool, r: Result<()>, nexts: nat, ghost written: seq<Frame>, ghost s': ConnState, ghost rem': Bytes)
    requires conn.Attached() && s == conn.Snapshot() && rem == conn.reader.stream.Remaining()
    requires RunsAs(run, conn.decoder.huffman)
    modifies conn, conn.remoteSettings, conn.decoder.table, conn.reader.stream, conn.reader.headerBuffer, conn.writer.headerBuffer
    ensures conn.Attached() && conn.Parts() == old(conn.Parts())
    ensures conn.reader.stream.input == old(conn.reader.stream.input) && conn.reader.stream.disposed == old(conn.reader.stream.disposed)
    ensures s' == conn.Snapshot() && rem' == conn.reader.stream.Remaining() && |rem'| <= |rem|
    ensures conn.reader.stream.pos == old(conn.reader.stream.pos) + (|rem| - |rem'|)
    ensures conn.reader.stream.output == old(conn.reader.stream.output) + Sent(written)
    ensures done ==> run(s, rem) == Run(r, s', written, nexts, |rem| - |rem'|)
    ensures !done ==> |rem'| < |rem| && run(s, rem) == After(written, nexts, |rem| - |rem'|, run(s', rem'))
  {
    ghost var huffman := conn.decoder.huffman;
    RunIs(run, huffman, s, rem);
    var frame := conn.reader.ReadFrame();
    s', rem' := conn.Snapshot(), conn.reader.stream.Remaining();
    if frame.Err? || frame.value.None? {
      RunEnd(huffman, s, rem);
      written := [];
      if frame.Err? {
        return true, Err(frame.failure), 0, written, s', rem';
      }
      return true, Ok(()), 1, written, s', rem';
    }
    var f := frame.value.value;
    ReadFrameFits(rem, f);
    written := DispatchSpec(huffman, s, f).written;
    r := DispatchFrame(conn, f);
    s' := conn.Snapshot();
    if r.Err? {
      RunFrameFails(huffman, s, rem, f, DispatchSpec(huffman, s, f));
      return true, r, 0, written, s', rem';
    }
    ghost var n := ReadSpec(rem).1;
    assert rem' == rem[n..] && |rem| - |rem'| == n;
    RunFrameContinues(huffman, s, rem, f, DispatchSpec(huffman, s, f));
    assert RunSpec(huffman, s, rem) == After(written, 1, n, RunSpec(huffman, s', rem'));
    RunIs(run, huffman, s', rem');
    done, nexts := false, 1;
  }

  /**
   * One turn of the loop, with the frames `written`, the `nexts` calls and
   * the `consumed` octets of the turns before it: what they add up to is
   * still the run `total` from where the loop started, on top of the output
   * `base` it started with.
   */
  method Turn(conn: Http2Connection, ghost run: RunOf, ghost total: Run, ghost base: Bytes,
              ghost s: ConnState, ghost rem: Bytes, ghost written: seq<Frame>, nexts: nat, ghost consumed: nat)
      returns (done: bool, r: Result<()>, nexts': nat, ghost written': seq<Frame>, ghost s': ConnState, ghost rem': Bytes,
               ghost consumed': nat)
    requires conn.Attached() && RunsAs(run, conn.decoder.huffman)
    requires s == conn.Snapshot() && rem == conn.reader.stream.Remaining()
    requires conn.reader.stream.output == base + Sent(written)
    requires total == After(written, nexts, consumed, run(s, rem))
    modifies conn, conn.remoteSettings, conn.decoder.table, conn.reader.stream, conn.reader.headerBuffer, conn.writer.headerBuffer
    ensures conn.Attached() && conn.Parts() == old(conn.Parts())
    ensures conn.reader.stream.input == old(conn.reader.stream.input) && conn.reader.stream.disposed == old(conn.reader.stream.disposed)
    ensures s' == conn.Snapshot() && rem' == conn.reader.stream.Remaining()
    ensures consumed' >= consumed && conn.reader.stream.pos == old(conn.reader.stream.pos) + (consumed' - consumed)
    ensures conn.reader.stream.output == base + Sent(written')
    ensures done ==> total == Run(r, s', written', nexts', consumed')
    ensures !done ==> |rem'| < |rem| && total == After(written', nexts', consumed', run(s', rem'))
  {
    var called;
    ghost var turn;
    done, r, called, turn, s', rem' := DispatchNext(conn, run, s, rem);
    SentAfter(base, old(conn.reader.stream.output), conn.reader.stream.output, written, turn);
    written', nexts', consumed' := written + turn, nexts + called, consumed + (|rem| - |rem'|);
    TurnAdds(total, run(s, rem), written, nexts, consumed, done, r, s', turn, called, |rem| - |rem'|, run(s', rem'),
             written', nexts', consumed');
  }

  /**
   * The `while (true)` loop of InvokeAsync: returns the result and how many
   * times `next` was called.
   */
  method DispatchFrames(conn: Http2Connection, ghost run: RunOf) returns (r: Result<()>, nexts: nat)
    requires conn.Attached() && RunsAs(run, conn.decoder.huffman)
    modifies conn, conn.remoteSettings, conn.decoder.table, conn.reader.stream, conn.reader.headerBuffer, conn.writer.headerBuffer
    ensures conn.Attached() && conn.Parts() == old(conn.Parts())
    ensures conn.reader.stream.input == old(conn.reader.stream.input) && conn.reader.stream.disposed == old(conn.reader.stream.disposed)
    ensures var v := run(old(conn.Snapshot()), old(conn.reader.stream.Remaining()));
      r == v.result && nexts == v.nexts && conn.Snapshot() == v.state
      && conn.reader.stream.output == old(conn.reader.stream.output) + Sent(v.written)
      && conn.reader.stream.pos == old(conn.reader.stream.pos) + v.consumed
  {
    ghost var channel := conn.reader.stream;
    ghost var s := conn.Snapshot();
    ghost var rem := channel.Remaining();
    ghost var total := run(s, rem);
    ghost var written: seq<Frame> := [];
    ghost var consumed: nat := 0;
    nexts := 0;
    while true
      invariant conn.Attached() && conn.Parts() == old(conn.Parts()) && conn.reader.stream == channel
      invariant channel.input == old(channel.input) && channel.disposed == old(channel.disposed)
      invariant s == conn.Snapshot() && rem == channel.Remaining()
      invariant channel.pos == old(channel.pos) + consumed
      invariant channel.output == old(channel.output) + Sent(written)
      invariant total == After(written, nexts, consumed, run(s, rem))
      decreases |rem|
    {
      var done, result, nexts', written', s', rem', consumed' := Turn(conn, run, total, old(channel.output), s, rem, written, nexts, consumed);
      if done {
        return result, nexts';
      }
      written, nexts, consumed, s, rem := written', nexts', consumed', s', rem';
    }
  }

  /**
   * InvokeAsync: without an HTTP/2 connection under "http2", or before its
   * handshake is complete, only `next` runs; otherwise the frame loop runs
   * and its failure, if any, is rethrown.
   */
  method InvokeAsync(ctx: NetworkContext) returns (r: Result<()>, nexts: nat)
    requires Http2Of(ctx.items, "http2").Some? ==> Http2Of(ctx.items, "http2").value.Attached()
    modifies if Http2Of(ctx.items, "http2").Some? then Http2Of(ctx.items, "http2").value.Footprint() else {}
    ensures Http2Of(ctx.items, "http2").None? ==> r == Ok(()) && nexts == 1
    ensures Http2Of(ctx.items, "http2").Some? ==>
      var conn := Http2Of(ctx.items, "http2").value;
      && conn.Attached() && conn.Parts() == old(conn.Parts())
      && (!conn.handshakeComplete ==>
            r == Ok(()) && nexts == 1 && conn.Snapshot() == old(conn.Snapshot())
            && conn.reader.stream.pos == old(conn.reader.stream.pos)
            && conn.reader.stream.output == old(conn.reader.stream.output))
      && (conn.handshakeComplete ==>
            var run := RunSpec(conn.decoder.huffman, old(conn.Snapshot()), old(conn.reader.stream.Remaining()));
            r == run.result && nexts == run.nexts && conn.Snapshot() == run.state
            && conn.reader.stream.output == old(conn.reader.stream.output) + Sent(run.written)
            && conn.reader.stream.pos == old(conn.reader.stream.pos) + run.consumed)
  {
    var connection := Http2Of(ctx.items, "http2");
    if connection.None? {
      return Ok(()), 1;
    }
    var conn := connection.value;
    if !conn.handshakeComplete {
      return Ok(()), 1;
    }
    ghost var huffman := conn.decoder.huffman;
    r, nexts := DispatchFrames(conn, (s, rem) => RunSpec(huffman, s, rem));
  }
}
