/**
 * The HTTP/2 request step (Http2RequestStep): for every stream of the
 * connection whose request is complete and unanswered, a fixed text
 * response describing the request is written as a HEADERS frame and a DATA
 * frame, the stream is closed and marked answered, and `next` runs.
 *
 * The table is visited in the dictionary's order, which the model leaves
 * open: the order is a ghost out-parameter of the loop, and the
 * specification function `Serve` takes it as an argument.
 */
module Http2RequestStep {
  import opened Common
  import opened Channel
  import opened Decimal
  import opened HpackStaticTable
  import opened Http2Frame
  import opened Http2FrameIO
  import opened Http2Connection
  import opened HttpMessage
  import opened NetworkContext
  import D = HpackDynamicTable
  import Dec = HpackDecoder
  import Enc = HpackEncoder
  import RT = HpackRoundTrip
  import HF = HeadersFrame
  import DF = DataFrame
  import RST = RstStreamFrame

  /**
   * A stream is answered when its headers arrived, it was not answered yet,
   * and either the client ended the stream or its request announces no body
   * (the property pattern does not match a stream without a request).
   */
  predicate Ready(s: Http2Stream)
  {
    && s.headersReceived && !s.responseSent
    && (s.endStreamReceived || s.request.None? || s.request.value.body.None?)
  }

  /** One line of the response body per request header, in the dictionary's order. */
  function HeaderLines(d: Dict): string
  {
    if d == [] then ""
    else HeaderLines(d[..|d| - 1]) + "  " + d[|d| - 1].0 + ": " + d[|d| - 1].1 + "\n"
  }

  /** The response text: the method, path and stream id, then the request headers; a missing request prints as empty. */
  function ResponseText(s: Http2Stream): string
  {
    var verb := if s.request.Some? then s.request.value.verb else "";
    var path := if s.request.Some? then s.request.value.path else "";
    "Hello from HTTP/2!\n\n" + "Method: " + verb + "\n" + "Path: " + path + "\n" +
    "Stream ID: " + IntText(s.id) + "\n\n" + "Headers:\n" +
    (if s.request.Some? then HeaderLines(s.request.value.headers) else "")
  }

  /** The response body octets (UTF-8 of ASCII text). */
  function Body(s: Http2Stream): Bytes
  {
    Octets(ResponseText(s))
  }

  /** The response headers; content-length is the body's octet count in decimal. */
  function ResponseHeaders(length: nat): (hs: seq<HeaderField>)
    requires length + 256 < TWO31
    ensures |hs| == 4 && hs[3].name == Octets("content-length") && hs[3].value == Octets(Digits(length))
  {
    [Entry(":status", "200"), Entry("content-type", "text/plain; charset=utf-8"), Entry("server", "WRM-HTTP2/1.0"),
     Entry("content-length", Digits(length))]
  }

  /** The headers of the error response. */
  function ErrorHeaders(): seq<HeaderField>
  {
    [Entry(":status", "500"), Entry("content-type", "text/plain")]
  }

  /** A HEADERS frame value with END_HEADERS set, no padding and no priority. */
  function Head(headers: seq<HeaderField>, endStream: bool): HF.HeadersFrame
  {
    HF.HeadersFrame(headers, endStream, true, 0, false, 0, 0, false)
  }

  /** RST_STREAM with INTERNAL_ERROR on a non-zero stream. */
  function InternalError(id: int32): (f: Frame)
    requires id != 0
    ensures WriteSpec(f).Ok? && f.frameType == RST_STREAM && f.streamId == id
  {
    RST.ToFrame(RST.RstStreamFrame(RST.INTERNAL_ERROR), id).value
  }

  /** The HEADERS frame ToFrame builds around the encoded block of a header list. */
  function HeadFrame(headers: seq<HeaderField>, endStream: bool, id: int32, block: Bytes): Frame
  {
    HF.Assemble(Head(headers, endStream), id, block)
  }

  /** The DATA frame that carries the body and ends the stream. */
  function DataOf(body: Bytes, id: int32): Frame
    requires id != 0 && |body| + 256 < TWO31
  {
    DF.ToFrame(DF.DataFrame(body, 0, true), id).value
  }

  /** The frame `e`, or RST_STREAM with INTERNAL_ERROR when the writer refuses `e`. */
  function OrReset(e: Frame, id: int32): Frame
    requires id != 0
  {
    if WriteSpec(e).Ok? then e else InternalError(id)
  }

  /** What the catch block writes: the 500 HEADERS frame, or RST_STREAM when the writer refuses that frame. */
  function CatchFrame(id: int32, block: Bytes): Frame
    requires id != 0
  {
    OrReset(HeadFrame(ErrorHeaders(), true, id, block), id)
  }

  /** What processing one stream leaves: the stream, the encoder's entries, the frames written, and whether an exception escaped. */
  datatype Processed = Processed(stream: Http2Stream, entries: seq<HeaderField>, written: seq<Frame>, escaped: bool)

  /**
   * The catch block, after the frames `sent` went out. On stream 0 neither
   * the 500 HEADERS frame nor RST_STREAM can be built and the exception
   * escapes; the encoder's table is untouched then.
   */
  function Recover(s: Http2Stream, entries: seq<HeaderField>, maxSize: int32, sent: seq<Frame>): (p: Processed)
    requires D.Fits(entries, maxSize)
    ensures D.Fits(p.entries, maxSize) && p.stream == s && (p.escaped <==> s.id == 0)
  {
    if s.id == 0 then Processed(s, entries, sent, true)
    else
      var (block, after) := Enc.EncodeBlock(entries, maxSize, ErrorHeaders());
      Processed(s, after, sent + [CatchFrame(s.id, block)], false)
  }

  /**
   * ProcessStreamAsync: the HEADERS frame, then the DATA frame that ends the
   * stream, then the state Closed. A failure on the way (stream 0, a frame
   * the writer refuses, a body too long for an array) goes to the catch block.
   */
  function Process(s: Http2Stream, body: Bytes, entries: seq<HeaderField>, maxSize: int32): (p: Processed)
    requires D.Fits(entries, maxSize)
    ensures D.Fits(p.entries, maxSize)
  {
    if |body| + 256 >= TWO31 || s.id == 0 then Recover(s, entries, maxSize, [])
    else Respond(s, body, ResponseHeaders(|body|), entries, maxSize)
  }

  /** ProcessStreamAsync from the HEADERS frame, which carries `headers`, on; for a stream that has an id and a body that fits an array. */
  function Respond(s: Http2Stream, body: Bytes, headers: seq<HeaderField>, entries: seq<HeaderField>, maxSize: int32): (p: Processed)
    requires D.Fits(entries, maxSize) && s.id != 0 && |body| + 256 < TWO31
    ensures D.Fits(p.entries, maxSize)
  {
    var (block, after) := Enc.EncodeBlock(entries, maxSize, headers);
    var h := HeadFrame(headers, false, s.id, block);
    if WriteSpec(h).Err? then Recover(s, after, maxSize, [])
    else Deliver(s, body, after, maxSize, h)
  }

  /** ProcessStreamAsync after the HEADERS frame `h` went out: the DATA frame, then the state Closed. */
  function Deliver(s: Http2Stream, body: Bytes, entries: seq<HeaderField>, maxSize: int32, h: Frame): (p: Processed)
    requires D.Fits(entries, maxSize) && s.id != 0 && |body| + 256 < TWO31
    ensures D.Fits(p.entries, maxSize)
  {
    var d := DataOf(body, s.id);
    if WriteSpec(d).Err? then Recover(s, entries, maxSize, [h])
    else Processed(s.(state := Closed), entries, [h, d], false)
  }

  /** The state of the scan over the stream table. `current` is the stream last stored under "HTTP_CONTEXT". */
  datatype Outcome = Outcome(streams: StreamTable, entries: seq<HeaderField>, written: seq<Frame>, nexts: nat,
                             current: Option<Http2Stream>, escaped: bool)

  /** A per-stream step of the scan: the stream and the encoder's entries in, what processing leaves out. */
  type StreamStep = (Http2Stream, seq<HeaderField>) -> Processed

  /**
   * ProcessStreamAsync as the scan's step, for an encoder whose table holds
   * at most `maxSize` octets (an entry list that does not fit cannot occur
   * and is left alone).
   */
  function Answer(maxSize: int32): StreamStep
  {
    (s: Http2Stream, entries: seq<HeaderField>) =>
      if D.Fits(entries, maxSize) then Process(s, Body(s), entries, maxSize) else Processed(s, entries, [], false)
  }

  /**
   * What the scan's properties rest on: the table keeps fitting, an
   * exception escapes exactly on stream 0 and before anything is written,
   * and at most the stream's state changes, to Closed.
   */
  ghost predicate Disciplined(step: StreamStep, maxSize: int32)
  {
    forall s: Http2Stream, entries: seq<HeaderField> :: D.Fits(entries, maxSize) ==>
      && D.Fits(step(s, entries).entries, maxSize)
      && (step(s, entries).escaped <==> s.id == 0) && (step(s, entries).escaped ==> step(s, entries).written == [])
      && step(s, entries).stream == s.(state := step(s, entries).stream.state)
      && (step(s, entries).stream.state == Closed || step(s, entries).stream.state == s.state)
  }

  /**
   * `step` is ProcessStreamAsync on every entry list that fits. The
   * quantifier fires only on an application of Process, so a method that
   * speaks of `step` alone does not unfold the processing.
   */
  ghost predicate Processes(step: StreamStep, maxSize: int32)
  {
    forall s: Http2Stream, entries: seq<HeaderField> {:trigger Process(s, Body(s), entries, maxSize)} ::
      D.Fits(entries, maxSize) ==> step(s, entries) == Process(s, Body(s), entries, maxSize)
  }

  /** One visit of the scan: a ready stream is processed, answered and handed to `next`; an escaped exception ends the scan. */
  function Visit(step: StreamStep, o: Outcome, id: int32): Outcome
  {
    if o.escaped || id !in o.streams || !Ready(o.streams[id]) then o
    else Take(o, id, o.streams[id], step(o.streams[id], o.entries))
  }

  /** The scan state after the stream `s` under `id` was processed to `p`: stored under "HTTP_CONTEXT", then answered unless an exception escaped. */
  function Take(o: Outcome, id: int32, s: Http2Stream, p: Processed): Outcome
  {
    if p.escaped then o.(entries := p.entries, written := o.written + p.written, current := Some(s), escaped := true)
    else
      o.(streams := o.streams[id := p.stream.(responseSent := true)], entries := p.entries,
         written := o.written + p.written, nexts := o.nexts + 1, current := Some(s))
  }

  /** The scan over the ids in the order `order`. */
  function Serve(step: StreamStep, streams: StreamTable, entries: seq<HeaderField>, order: seq<int32>): Outcome
  {
    if order == [] then Outcome(streams, entries, [], 0, None, false)
    else Visit(step, Serve(step, streams, entries, order[..|order| - 1]), order[|order| - 1])
  }

  predicate Distinct(order: seq<int32>)
  {
    forall i, j :: 0 <= i < j < |order| ==> order[i] != order[j]
  }

  /** The ids of `order` whose streams are ready in `streams`. */
  function ReadyIn(streams: StreamTable, order: seq<int32>): set<int32>
  {
    set k | k in order && k in streams && Ready(streams[k])
  }

  // ---------------------------------------------------------------------
  // Processing one stream
  // ---------------------------------------------------------------------

  /** A HEADERS frame without padding or priority carries the block alone, and the writer takes it when it fits 24 bits. */
  lemma HeadWritable(headers: seq<HeaderField>, endStream: bool, id: int32, block: Bytes)
    ensures var f := HeadFrame(headers, endStream, id, block);
      && f.frameType == HEADERS && f.streamId == id && f.EndHeaders() && f.EndStream() == endStream
      && f.payload == block && (WriteSpec(f).Ok? <==> |block| <= 0xFF_FFFF)
  {
    var f := HeadFrame(headers, endStream, id, block);
    assert f.payload == block + [];
    if |block| <= 0xFF_FFFF {
      assert f.length == |block|;
    } else if |block| < TWO32 {
      assert f.length == |block|;
    } else {
      assert f.length != |block|;
    }
  }

  /** The DATA frame of a response carries the body with END_STREAM, and the writer takes it when it fits 24 bits. */
  lemma DataWritable(body: Bytes, id: int32)
    requires id != 0 && |body| + 256 < TWO31
    ensures var f := DataOf(body, id);
      f.payload == body && f.frameType == DATA && f.streamId == id && f.EndStream()
      && (WriteSpec(f).Ok? <==> |body| <= 0xFF_FFFF)
  {
  }

  /**
   * The catch block always gets a frame out on its stream: the 500 HEADERS
   * frame with END_STREAM when the writer takes it, else RST_STREAM.
   */
  lemma CatchFrameWritten(id: int32, block: Bytes)
    requires id != 0
    ensures var f := CatchFrame(id, block);
      && WriteSpec(f).Ok? && f.streamId == id
      && (|block| <= 0xFF_FFFF ==> f == HeadFrame(ErrorHeaders(), true, id, block) && f.EndStream())
      && (|block| > 0xFF_FFFF ==> f == InternalError(id))
  {
    HeadWritable(ErrorHeaders(), true, id, block);
  }

  /** The catch block escapes exactly on stream 0, and otherwise writes one more frame. */
  lemma RecoverShape(s: Http2Stream, entries: seq<HeaderField>, maxSize: int32, sent: seq<Frame>)
    requires D.Fits(entries, maxSize)
    ensures var p := Recover(s, entries, maxSize, sent);
      && (p.escaped <==> s.id == 0) && (p.escaped ==> p.written == sent)
      && (!p.escaped ==> |p.written| == |sent| + 1 && p.written[..|sent|] == sent)
  {
  }

  /** An exception escapes ProcessStreamAsync exactly for stream 0, and only the state can change. */
  lemma ProcessEscapes(s: Http2Stream, body: Bytes, entries: seq<HeaderField>, maxSize: int32)
    requires D.Fits(entries, maxSize)
    ensures var p := Process(s, body, entries, maxSize);
      && (p.escaped <==> s.id == 0) && (p.escaped ==> p.written == [])
      && p.stream == s.(state := p.stream.state) && (p.stream.state == Closed || p.stream.state == s.state)
  {
    if |body| + 256 >= TWO31 || s.id == 0 {
      RecoverShape(s, entries, maxSize, []);
    } else {
      var headers := ResponseHeaders(|body|);
      var (block, after) := Enc.EncodeBlock(entries, maxSize, headers);
      var h := HeadFrame(headers, false, s.id, block);
      if WriteSpec(h).Err? {
        RecoverShape(s, after, maxSize, []);
      } else {
        var d := DataOf(body, s.id);
        if WriteSpec(d).Err? {
          RecoverShape(s, after, maxSize, [h]);
        }
      }
    }
  }

  /** A HEADERS frame the writer refuses sends the stream to the catch block before anything is written. */
  lemma RespondHeadRefused(s: Http2Stream, body: Bytes, headers: seq<HeaderField>, entries: seq<HeaderField>, maxSize: int32)
    requires D.Fits(entries, maxSize) && s.id != 0 && |body| + 256 < TWO31
    requires |Enc.EncodeBlock(entries, maxSize, headers).0| > 0xFF_FFFF
    ensures Respond(s, body, headers, entries, maxSize) == Recover(s, Enc.EncodeBlock(entries, maxSize, headers).1, maxSize, [])
  {
    var (block, after) := Enc.EncodeBlock(entries, maxSize, headers);
    HeadWritable(headers, false, s.id, block);
  }

  /** A HEADERS frame the writer takes is followed by the DATA frame. */
  lemma RespondHeadSent(s: Http2Stream, body: Bytes, headers: seq<HeaderField>, entries: seq<HeaderField>, maxSize: int32)
    requires D.Fits(entries, maxSize) && s.id != 0 && |body| + 256 < TWO31
    requires |Enc.EncodeBlock(entries, maxSize, headers).0| <= 0xFF_FFFF
    ensures var (block, after) := Enc.EncodeBlock(entries, maxSize, headers);
      Respond(s, body, headers, entries, maxSize) == Deliver(s, body, after, maxSize, HeadFrame(headers, false, s.id, block))
  {
    var (block, after) := Enc.EncodeBlock(entries, maxSize, headers);
    HeadWritable(headers, false, s.id, block);
  }

  /** A DATA frame the writer refuses sends the stream to the catch block after the HEADERS frame. */
  lemma DeliverRefused(s: Http2Stream, body: Bytes, entries: seq<HeaderField>, maxSize: int32, h: Frame)
    requires D.Fits(entries, maxSize) && s.id != 0 && 0xFF_FFFF < |body| && |body| + 256 < TWO31
    ensures Deliver(s, body, entries, maxSize, h) == Recover(s, entries, maxSize, [h])
  {
    DataWritable(body, s.id);
  }

  /** A DATA frame the writer takes completes the response and closes the stream. */
  lemma DeliverAnswered(s: Http2Stream, body: Bytes, entries: seq<HeaderField>, maxSize: int32, h: Frame)
    requires D.Fits(entries, maxSize) && s.id != 0 && |body| <= 0xFF_FFFF
    ensures Deliver(s, body, entries, maxSize, h) == Processed(s.(state := Closed), entries, [h, DataOf(body, s.id)], false)
  {
    DataWritable(body, s.id);
  }

  /**
   * A stream whose frames can be written gets exactly the response's
   * HEADERS frame (END_STREAM clear) and then the DATA frame that carries
   * the body and ends the stream, and it ends Closed.
   */
  lemma ProcessAnswers(s: Http2Stream, body: Bytes, entries: seq<HeaderField>, maxSize: int32)
    requires D.Fits(entries, maxSize) && s.id != 0 && |body| <= 0xFF_FFFF
    requires |Enc.EncodeBlock(entries, maxSize, ResponseHeaders(|body|)).0| <= 0xFF_FFFF
    ensures var (block, after) := Enc.EncodeBlock(entries, maxSize, ResponseHeaders(|body|));
      Process(s, body, entries, maxSize)
        == Processed(s.(state := Closed), after, [HeadFrame(ResponseHeaders(|body|), false, s.id, block), DataOf(body, s.id)], false)
  {
    var headers := ResponseHeaders(|body|);
    var (block, after) := Enc.EncodeBlock(entries, maxSize, headers);
    RespondHeadSent(s, body, headers, entries, maxSize);
    DeliverAnswered(s, body, after, maxSize, HeadFrame(headers, false, s.id, block));
  }

  /**
   * A peer whose HPACK decoder mirrors the encoder reads the response's
   * HEADERS frame back as the response headers, and the content-length
   * value it reads is the length of the body the DATA frame carries.
   */
  lemma ResponseReadsBack(huffman: Bytes -> HString, dec: seq<HeaderField>, body: Bytes, id: int32,
                          entries: seq<HeaderField>, maxSize: int32)
    requires D.Fits(entries, maxSize) && RT.Mirrors(dec, entries) && id != 0 && |body| <= 0xFF_FFFF
    requires |Enc.EncodeBlock(entries, maxSize, ResponseHeaders(|body|)).0| <= 0xFF_FFFF
    ensures var headers := ResponseHeaders(|body|);
      var f := HeadFrame(headers, false, id, Enc.EncodeBlock(entries, maxSize, headers).0);
      var (r, _) := HF.ParseSpec(huffman, Dec.TableState(dec, maxSize), f);
      && r.Ok? && RT.SameHeaders(r.value.headers, headers)
      && r.value.headers[3].value == Octets(Digits(|body|))
      && AllDigits(Text(r.value.headers[3].value)) && Value(Text(r.value.headers[3].value)) == |body|
  {
    var headers := ResponseHeaders(|body|);
    HF.ParseToFrame(huffman, dec, entries, maxSize, Head(headers, false), id);
    var f := HeadFrame(headers, false, id, Enc.EncodeBlock(entries, maxSize, headers).0);
    var (r, _) := HF.ParseSpec(huffman, Dec.TableState(dec, maxSize), f);
    assert Matches(r.value.headers[3], headers[3].name, headers[3].value);
    var digits := Digits(|body|);
    assert r.value.headers[3].value == Octets(digits);
    assert forall i :: 0 <= i < |digits| ==> digits[i] as int < 256 by {
      assert AllDigits(digits);
    }
    OctetsText(digits);
    ValueOfDigits(|body|);
  }

  /** ASCII text survives the trip to octets and back. */
  lemma OctetsText(t: string)
    requires forall i :: 0 <= i < |t| ==> t[i] as int < 256
    ensures Text(Octets(t)) == t
  {
  }

  // ---------------------------------------------------------------------
  // The scan
  // ---------------------------------------------------------------------

  /** ProcessStreamAsync keeps the discipline the scan rests on. */
  lemma AnswerDisciplined(maxSize: int32)
    ensures Disciplined(Answer(maxSize), maxSize)
  {
    forall s: Http2Stream, entries: seq<HeaderField> | D.Fits(entries, maxSize)
      ensures var p := Answer(maxSize)(s, entries);
        && D.Fits(p.entries, maxSize) && (p.escaped <==> s.id == 0) && (p.escaped ==> p.written == [])
        && p.stream == s.(state := p.stream.state) && (p.stream.state == Closed || p.stream.state == s.state)
    {
      ProcessEscapes(s, Body(s), entries, maxSize);
    }
  }

  /** The scan's step is ProcessStreamAsync. */
  lemma AnswerProcesses(maxSize: int32)
    ensures Processes(Answer(maxSize), maxSize)
  {
  }

  /** One visit changes at most the visited stream: a ready one is answered, or an exception escapes exactly on stream 0. */
  lemma VisitEffect(step: StreamStep, maxSize: int32, o: Outcome, id: int32)
    requires Disciplined(step, maxSize) && D.Fits(o.entries, maxSize)
    ensures var r := Visit(step, o, id);
      && D.Fits(r.entries, maxSize) && r.streams.Keys == o.streams.Keys
      && (forall k :: k in o.streams && k != id ==> r.streams[k] == o.streams[k])
      && (o.escaped || id !in o.streams || !Ready(o.streams[id]) ==> r == o)
      && (r.escaped <==> o.escaped || (id in o.streams && Ready(o.streams[id]) && o.streams[id].id == 0))
      && (!r.escaped && id in o.streams && Ready(o.streams[id]) ==>
            && r.nexts == o.nexts + 1
            && r.streams[id] == o.streams[id].(state := r.streams[id].state, responseSent := true)
            && (r.streams[id].state == Closed || r.streams[id].state == o.streams[id].state))
  {
    if !o.escaped && id in o.streams && Ready(o.streams[id]) {
      var p := step(o.streams[id], o.entries);
      assert D.Fits(p.entries, maxSize);
    }
  }

  /** The scan keeps the table fitting and the table's ids, and leaves every stream it did not find ready as it was. */
  lemma {:induction false} ServeKeeps(step: StreamStep, maxSize: int32, streams: StreamTable, entries: seq<HeaderField>,
                                      order: seq<int32>)
    requires Disciplined(step, maxSize) && D.Fits(entries, maxSize) && Distinct(order)
    ensures var o := Serve(step, streams, entries, order);
      && D.Fits(o.entries, maxSize) && o.streams.Keys == streams.Keys
      && (forall k :: k in streams && k !in ReadyIn(streams, order) ==> o.streams[k] == streams[k])
  {
    if order != [] {
      var init := order[..|order| - 1];
      var id := order[|order| - 1];
      assert Distinct(init);
      ServeKeeps(step, maxSize, streams, entries, init);
      VisitEffect(step, maxSize, Serve(step, streams, entries, init), id);
      assert id !in init;
    }
  }

  /** The scan has visited the distinct ids `order` and has the ids `ids` of the table's `keys` still to visit. */
  predicate Pending(order: seq<int32>, ids: set<int32>, keys: set<int32>)
  {
    && Distinct(order) && ids <= keys
    && (forall k :: k in order ==> k in keys && k !in ids)
    && (forall k :: k in keys ==> k in ids || k in order)
  }

  /** Visiting one id still to visit keeps the scan's bookkeeping. */
  lemma PendingStep(order: seq<int32>, ids: set<int32>, keys: set<int32>, id: int32)
    requires Pending(order, ids, keys) && id in ids
    ensures Pending(order + [id], ids - {id}, keys)
  {
    forall i, j | 0 <= i < j < |order + [id]|
      ensures (order + [id])[i] != (order + [id])[j]
    {
      if j == |order| {
        assert order[i] in order;
      }
    }
  }

  /** A scan over one id more is a visit after the scan so far. */
  lemma ServeSnoc(step: StreamStep, streams: StreamTable, entries: seq<HeaderField>, order: seq<int32>, id: int32)
    ensures Serve(step, streams, entries, order + [id]) == Visit(step, Serve(step, streams, entries, order), id)
  {
    assert (order + [id])[..|order|] == order;
  }

  /** After a scan in which no exception escaped, `next` ran once per stream the scan found ready. */
  lemma {:induction false} ServeCount(step: StreamStep, maxSize: int32, streams: StreamTable, entries: seq<HeaderField>,
                                      order: seq<int32>)
    requires Disciplined(step, maxSize) && D.Fits(entries, maxSize) && Distinct(order)
    ensures var o := Serve(step, streams, entries, order);
      !o.escaped ==> o.nexts == |ReadyIn(streams, order)|
  {
    if order != [] {
      var init := order[..|order| - 1];
      var id := order[|order| - 1];
      assert Distinct(init);
      ServeCount(step, maxSize, streams, entries, init);
      ServeKeeps(step, maxSize, streams, entries, init);
      var o := Serve(step, streams, entries, init);
      VisitEffect(step, maxSize, o, id);
      assert id !in init;
      if id in streams && Ready(streams[id]) {
        assert ReadyIn(streams, order) == ReadyIn(streams, init) + {id};
      } else {
        assert ReadyIn(streams, order) == ReadyIn(streams, init);
      }
    }
  }

  /**
   * After a scan in which no exception escaped, each stream it found ready
   * is answered, with only its state and flag changed.
   */
  lemma {:induction false} ServeAnswers(step: StreamStep, maxSize: int32, streams: StreamTable, entries: seq<HeaderField>,
                                        order: seq<int32>)
    requires Disciplined(step, maxSize) && D.Fits(entries, maxSize) && Distinct(order)
    ensures var o := Serve(step, streams, entries, order);
      && o.streams.Keys == streams.Keys
      && (!o.escaped ==> forall k :: k in ReadyIn(streams, order) ==>
            && o.streams[k] == streams[k].(state := o.streams[k].state, responseSent := true)
            && (o.streams[k].state == Closed || o.streams[k].state == streams[k].state))
  {
    ServeKeeps(step, maxSize, streams, entries, order);
    if order != [] {
      var init := order[..|order| - 1];
      var id := order[|order| - 1];
      assert Distinct(init);
      ServeAnswers(step, maxSize, streams, entries, init);
      ServeKeeps(step, maxSize, streams, entries, init);
      var o := Serve(step, streams, entries, init);
      VisitEffect(step, maxSize, o, id);
      assert id !in init;
      assert forall k :: k in ReadyIn(streams, order) ==> k in ReadyIn(streams, init) || k == id;
    }
  }

  /** An exception escapes the scan exactly when a ready stream it reaches has id 0. */
  lemma {:induction false} ServeEscapes(step: StreamStep, maxSize: int32, streams: StreamTable, entries: seq<HeaderField>,
                                        order: seq<int32>)
    requires Disciplined(step, maxSize) && D.Fits(entries, maxSize) && Distinct(order)
    ensures Serve(step, streams, entries, order).escaped <==> exists k :: k in ReadyIn(streams, order) && streams[k].id == 0
  {
    if order != [] {
      var init := order[..|order| - 1];
      var id := order[|order| - 1];
      assert Distinct(init);
      ServeEscapes(step, maxSize, streams, entries, init);
      ServeKeeps(step, maxSize, streams, entries, init);
      var o := Serve(step, streams, entries, init);
      VisitEffect(step, maxSize, o, id);
      assert id !in init;
      assert ReadyIn(streams, order) == ReadyIn(streams, init) + (if id in streams && Ready(streams[id]) then {id} else {});
    }
  }

  /** A table with no ready stream is left alone: nothing is written and `next` does not run. */
  lemma {:induction false} NothingReady(step: StreamStep, streams: StreamTable, entries: seq<HeaderField>, order: seq<int32>)
    requires forall k :: k in streams ==> !Ready(streams[k])
    ensures Serve(step, streams, entries, order) == Outcome(streams, entries, [], 0, None, false)
  {
    if order != [] {
      NothingReady(step, streams, entries, order[..|order| - 1]);
    }
  }

  /** After a full scan in which no exception escaped, no stream is ready: a second scan changes nothing. */
  lemma SecondScanIdle(step: StreamStep, maxSize: int32, streams: StreamTable, entries: seq<HeaderField>,
                       order: seq<int32>, order2: seq<int32>)
    requires Disciplined(step, maxSize) && D.Fits(entries, maxSize) && Distinct(order)
    requires (set k | k in order) == streams.Keys
    requires !Serve(step, streams, entries, order).escaped
    ensures var o := Serve(step, streams, entries, order);
      Serve(step, o.streams, o.entries, order2) == Outcome(o.streams, o.entries, [], 0, None, false)
  {
    var o := Serve(step, streams, entries, order);
    ServeKeeps(step, maxSize, streams, entries, order);
    ServeAnswers(step, maxSize, streams, entries, order);
    forall k | k in o.streams
      ensures !Ready(o.streams[k])
    {
      if k !in ReadyIn(streams, order) {
        assert k in order;
      }
    }
    NothingReady(step, o.streams, o.entries, order2);
  }

  // ---------------------------------------------------------------------
  // The step
  // ---------------------------------------------------------------------

  /** After the frames `sent`, the catch block on a non-zero stream adds its one frame. */
  lemma RecoverOutput(s: Http2Stream, entries: seq<HeaderField>, maxSize: int32, sent: seq<Frame>)
    requires D.Fits(entries, maxSize) && s.id != 0
    ensures var p := Recover(s, entries, maxSize, sent);
      p.written == sent + p.written[|sent|..]
      && p.written[|sent|..] == [CatchFrame(s.id, Enc.EncodeBlock(entries, maxSize, ErrorHeaders()).0)]
  {
  }

  /** Sending no frames leaves the output as it was. */
  lemma NothingSent(b: Bytes)
    ensures b + Sent([]) == b
  {
    assert b + [] == b;
  }
  /** The response text, built as the source builds it: the fixed lines, then one line per request header. */
  method BuildText(s: Http2Stream) returns (text: string)
    ensures text == ResponseText(s)
  {
    var verb := if s.request.Some? then s.request.value.verb else "";
    var path := if s.request.Some? then s.request.value.path else "";
    text := "Hello from HTTP/2!\n\n" + "Method: " + verb + "\n" + "Path: " + path + "\n" +
            "Stream ID: " + IntText(s.id) + "\n\n" + "Headers:\n";
    ghost var start := text;
    if s.request.Some? {
      var headers := s.request.value.headers;
      for i := 0 to |headers|
        invariant text == start + HeaderLines(headers[..i])
      {
        assert headers[..i + 1][..i] == headers[..i];
        text := text + "  " + headers[i].0 + ": " + headers[i].1 + "\n";
      }
      assert headers[..|headers|] == headers;
    }
  }

  /** The catch block's writes: the frame `e`, or RST_STREAM with INTERNAL_ERROR when the writer refuses it. */
  method SendCatch(writer: FrameWriter, id: int32, e: Frame)
    requires writer.Valid() && id != 0
    modifies writer.stream, writer.headerBuffer
    ensures writer.Valid() && writer.stream.input == old(writer.stream.input) && writer.stream.pos == old(writer.stream.pos)
    ensures writer.stream.disposed == old(writer.stream.disposed)
    ensures writer.stream.output == old(writer.stream.output) + Sent([OrReset(e, id)])
  {
    var written := writer.WriteFrame(e);
    if written.Err? {
      SendReset(writer, id);
    } else {
      SentOne(e);
    }
  }

  /** RST_STREAM with INTERNAL_ERROR on stream `id`. */
  method SendReset(writer: FrameWriter, id: int32)
    requires writer.Valid() && id != 0
    modifies writer.stream, writer.headerBuffer
    ensures writer.Valid() && writer.stream.input == old(writer.stream.input) && writer.stream.pos == old(writer.stream.pos)
    ensures writer.stream.disposed == old(writer.stream.disposed)
    ensures writer.stream.output == old(writer.stream.output) + Sent([InternalError(id)])
  {
    var rst := RST.ToFrame(RST.RstStreamFrame(RST.INTERNAL_ERROR), id);
    var _ := writer.WriteFrame(rst.value);
    SentOne(rst.value);
  }

  /** The catch block of ProcessStreamAsync. */
  method RecoverStream(writer: FrameWriter, encoder: Enc.Encoder, stream: Http2Stream) returns (r: Result<()>)
    requires writer.Valid() && encoder.Valid()
    modifies writer.stream, writer.headerBuffer, encoder.table
    ensures writer.Valid() && encoder.Valid() && encoder.table.maxSize == old(encoder.table.maxSize)
    ensures writer.stream.input == old(writer.stream.input) && writer.stream.pos == old(writer.stream.pos)
    ensures writer.stream.disposed == old(writer.stream.disposed)
    ensures stream.id == 0 ==>
      r == Err(ArgumentError) && encoder.table.entries == old(encoder.table.entries)
      && writer.stream.output == old(writer.stream.output)
    ensures stream.id != 0 ==>
      var (block, after) := Enc.EncodeBlock(old(encoder.table.entries), encoder.table.maxSize, ErrorHeaders());
      r == Ok(()) && encoder.table.entries == after
      && writer.stream.output == old(writer.stream.output) + Sent([CatchFrame(stream.id, block)])
  {
    ghost var block := Enc.EncodeBlock(encoder.table.entries, encoder.table.maxSize, ErrorHeaders()).0;
    var errorFrame := HF.ToFrame(Head(ErrorHeaders(), true), stream.id, encoder);
    if errorFrame.Err? {
      return Err(ArgumentError);
    }
    SendCatch(writer, stream.id, errorFrame.value);
    r := Ok(());
  }

  /**
   * ProcessStreamAsync, over the connection's writer and encoder. The stream
   * is a value: the caller stores the returned stream back in the table.
   */
  method ProcessStream(writer: FrameWriter, encoder: Enc.Encoder, stream: Http2Stream, ghost step: StreamStep)
    returns (updated: Http2Stream, r: Result<()>)
    requires writer.Valid() && encoder.Valid() && Processes(step, encoder.table.maxSize)
    modifies writer.stream, writer.headerBuffer, encoder.table
    ensures writer.Valid() && encoder.Valid() && encoder.table.maxSize == old(encoder.table.maxSize)
    ensures writer.stream.input == old(writer.stream.input) && writer.stream.pos == old(writer.stream.pos)
    ensures writer.stream.disposed == old(writer.stream.disposed)
    ensures var p := step(stream, old(encoder.table.entries));
      && updated == p.stream && (r.Err? <==> p.escaped) && (r.Err? ==> r == Err(ArgumentError))
      && encoder.table.entries == p.entries
      && writer.stream.output == old(writer.stream.output) + Sent(p.written)
  {
    ghost var entries := encoder.table.entries;
    var text := BuildText(stream);
    updated, r := ProcessBody(writer, encoder, stream, Octets(text));
    assert step(stream, entries) == Process(stream, Body(stream), entries, encoder.table.maxSize);
  }

  /** ProcessStreamAsync once the response body is built. */
  method ProcessBody(writer: FrameWriter, encoder: Enc.Encoder, stream: Http2Stream, body: Bytes) returns (updated: Http2Stream, r: Result<()>)
    requires writer.Valid() && encoder.Valid()
    modifies writer.stream, writer.headerBuffer, encoder.table
    ensures writer.Valid() && encoder.Valid() && encoder.table.maxSize == old(encoder.table.maxSize)
    ensures writer.stream.input == old(writer.stream.input) && writer.stream.pos == old(writer.stream.pos)
    ensures writer.stream.disposed == old(writer.stream.disposed)
    ensures var p := Process(stream, body, old(encoder.table.entries), encoder.table.maxSize);
      && updated == p.stream && (r.Err? <==> p.escaped) && (r.Err? ==> r == Err(ArgumentError))
      && encoder.table.entries == p.entries
      && writer.stream.output == old(writer.stream.output) + Sent(p.written)
  {
    if |body| + 256 >= TWO31 || stream.id == 0 {
      ghost var entries := encoder.table.entries;
      updated := stream;
      r := RecoverStream(writer, encoder, stream);
      if stream.id != 0 {
        RecoverOutput(stream, entries, encoder.table.maxSize, []);
      } else {
        NothingSent(writer.stream.output);
      }
      return;
    }
    updated, r := RespondStream(writer, encoder, stream, body, ResponseHeaders(|body|));
  }

  /** ProcessStreamAsync from the HEADERS frame on. */
  method RespondStream(writer: FrameWriter, encoder: Enc.Encoder, stream: Http2Stream, body: Bytes, headers: seq<HeaderField>)
    returns (updated: Http2Stream, r: Result<()>)
    requires writer.Valid() && encoder.Valid() && stream.id != 0 && |body| + 256 < TWO31
    modifies writer.stream, writer.headerBuffer, encoder.table
    ensures writer.Valid() && encoder.Valid() && encoder.table.maxSize == old(encoder.table.maxSize)
    ensures writer.stream.input == old(writer.stream.input) && writer.stream.pos == old(writer.stream.pos)
    ensures writer.stream.disposed == old(writer.stream.disposed)
    ensures var p := Respond(stream, body, headers, old(encoder.table.entries), encoder.table.maxSize);
      && updated == p.stream && r == Ok(()) && encoder.table.entries == p.entries
      && writer.stream.output == old(writer.stream.output) + Sent(p.written)
  {
    ghost var entries := encoder.table.entries;
    var h, sent := SendHead(writer, encoder, stream.id, headers);
    ghost var after := encoder.table.entries;
    if !sent {
      RespondHeadRefused(stream, body, headers, entries, encoder.table.maxSize);
      updated := stream;
      r := RecoverStream(writer, encoder, stream);
      RecoverOutput(stream, after, encoder.table.maxSize, []);
      return;
    }
    RespondHeadSent(stream, body, headers, entries, encoder.table.maxSize);
    updated, r := DeliverStream(writer, encoder, stream, body, h, old(writer.stream.output));
  }

  /** The HEADERS frame of the response: encoded with the connection's encoder, then written when the writer takes it. */
  method SendHead(writer: FrameWriter, encoder: Enc.Encoder, id: int32, headers: seq<HeaderField>) returns (h: Frame, sent: bool)
    requires writer.Valid() && encoder.Valid() && id != 0
    modifies writer.stream, writer.headerBuffer, encoder.table
    ensures writer.Valid() && encoder.Valid() && encoder.table.maxSize == old(encoder.table.maxSize)
    ensures writer.stream.input == old(writer.stream.input) && writer.stream.pos == old(writer.stream.pos)
    ensures writer.stream.disposed == old(writer.stream.disposed)
    ensures var (block, after) := Enc.EncodeBlock(old(encoder.table.entries), encoder.table.maxSize, headers);
      && h == HeadFrame(headers, false, id, block) && encoder.table.entries == after
      && (sent <==> |block| <= 0xFF_FFFF)
      && (sent ==> writer.stream.output == old(writer.stream.output) + Sent([h]))
      && (!sent ==> writer.stream.output == old(writer.stream.output))
  {
    ghost var entries := encoder.table.entries;
    var headersFrame := HF.ToFrame(Head(headers, false), id, encoder);
    ghost var block := Enc.EncodeBlock(entries, encoder.table.maxSize, headers).0;
    HeadWritable(headers, false, id, block);
    h := headersFrame.value;
    var written := writer.WriteFrame(h);
    sent := written.Ok?;
    SentOne(h);
  }

  /** ProcessStreamAsync after the HEADERS frame `h` went out on top of the output `before`. */
  method DeliverStream(writer: FrameWriter, encoder: Enc.Encoder, stream: Http2Stream, body: Bytes, h: Frame, ghost before: Bytes)
    returns (updated: Http2Stream, r: Result<()>)
    requires writer.Valid() && encoder.Valid() && stream.id != 0 && |body| + 256 < TWO31
    requires writer.stream.output == before + Sent([h])
    modifies writer.stream, writer.headerBuffer, encoder.table
    ensures writer.Valid() && encoder.Valid() && encoder.table.maxSize == old(encoder.table.maxSize)
    ensures writer.stream.input == old(writer.stream.input) && writer.stream.pos == old(writer.stream.pos)
    ensures writer.stream.disposed == old(writer.stream.disposed)
    ensures var p := Deliver(stream, body, old(encoder.table.entries), encoder.table.maxSize, h);
      && updated == p.stream && r == Ok(()) && encoder.table.entries == p.entries
      && writer.stream.output == before + Sent(p.written)
  {
    DataWritable(body, stream.id);
    var dataFrame := DF.ToFrame(DF.DataFrame(body, 0, true), stream.id);
    var written := writer.WriteFrame(dataFrame.value);
    ghost var mid := writer.stream.output;
    ghost var entries := encoder.table.entries;
    if written.Err? {
      DeliverRefused(stream, body, entries, encoder.table.maxSize, h);
      updated := stream;
      r := RecoverStream(writer, encoder, stream);
      RecoverOutput(stream, entries, encoder.table.maxSize, [h]);
      SentAfter(before, mid, writer.stream.output, [h], Recover(stream, entries, encoder.table.maxSize, [h]).written[1..]);
      return;
    }
    DeliverAnswered(stream, body, entries, encoder.table.maxSize, h);
    SentOne(dataFrame.value);
    SentAfter(before, old(writer.stream.output), writer.stream.output, [h], [dataFrame.value]);
    assert [h] + [dataFrame.value] == [h, dataFrame.value];
    updated := stream.(state := Closed);
    r := Ok(());
  }

  /** The context's items once `current` (if any) was stored under "HTTP_CONTEXT". */
  function WithCurrent(items: Items, current: Option<Http2Stream>): (r: Items)
    ensures current.None? ==> r == items
    ensures current.Some? ==> r.Keys == items.Keys + {"HTTP_CONTEXT"} && r["HTTP_CONTEXT"] == Http2StreamItem(current.value)
    ensures forall k :: k in items && k != "HTTP_CONTEXT" ==> k in r && r[k] == items[k]
  {
    if current.Some? then items["HTTP_CONTEXT" := Http2StreamItem(current.value)] else items
  }

  /** The connection, the writer and the context hold what the outcome `o` says, with `nexts` calls of `next`. */
  ghost predicate Reflects(connection: Http2Connection, writer: FrameWriter, ctx: NetworkContext, items: Items, before: Bytes,
                           o: Outcome, nexts: nat)
    reads connection, connection.encoder.table, writer.stream, ctx
  {
    && connection.streams == o.streams && connection.encoder.table.entries == o.entries && nexts == o.nexts
    && writer.stream.output == before + Sent(o.written) && ctx.items == WithCurrent(items, o.current)
  }

  /**
   * The loop body of InvokeAsync for the id `id`, from the scan state `o`:
   * a ready stream is stored under "HTTP_CONTEXT", processed, handed to
   * `next` and marked answered; any other stream is passed over.
   */
  method VisitStream(connection: Http2Connection, writer: FrameWriter, ctx: NetworkContext, id: int32,
                     nexts: nat, ghost step: StreamStep, ghost o: Outcome, ghost items: Items, ghost before: Bytes)
    returns (r: Result<()>, count: nat)
    requires connection.Valid() && writer.Valid() && !o.escaped && Processes(step, connection.encoder.table.maxSize)
    requires connection.streams == o.streams && connection.encoder.table.entries == o.entries && nexts == o.nexts
    requires id in o.streams && D.Fits(o.entries, connection.encoder.table.maxSize)
    requires writer.stream.output == before + Sent(o.written) && ctx.items == WithCurrent(items, o.current)
    modifies connection, writer.stream, writer.headerBuffer, connection.encoder.table, ctx
    ensures connection.Valid() && writer.Valid() && connection.Parts() == old(connection.Parts())
    ensures connection.encoder.table.maxSize == old(connection.encoder.table.maxSize)
    ensures writer.stream.input == old(writer.stream.input) && writer.stream.pos == old(writer.stream.pos)
    ensures writer.stream.disposed == old(writer.stream.disposed) && ctx.connection == old(ctx.connection)
    ensures Reflects(connection, writer, ctx, items, before, Visit(step, o, id), count)
    ensures var v := Visit(step, o, id); (r.Err? <==> v.escaped) && (r.Err? ==> r == Err(ArgumentError))
  {
    var stream := connection.streams[id];
    if !Ready(stream) {
      return Ok(()), nexts;
    }
    r, count := AnswerStream(connection, writer, ctx, id, stream, nexts, step, o, items, before);
  }

  /** A visit whose processing let an exception escape. */
  lemma TakeEscaped(o: Outcome, id: int32, s: Http2Stream, p: Processed)
    requires p.escaped
    ensures Take(o, id, s, p) == o.(entries := p.entries, written := o.written + p.written, current := Some(s), escaped := true)
  {
  }

  /** A visit that answered the stream. */
  lemma TakeServed(o: Outcome, id: int32, s: Http2Stream, p: Processed)
    requires !p.escaped
    ensures Take(o, id, s, p) == o.(streams := o.streams[id := p.stream.(responseSent := true)], entries := p.entries,
                                    written := o.written + p.written, nexts := o.nexts + 1, current := Some(s))
  {
  }

  /** The loop body of InvokeAsync for a ready stream `stream` under `id`. */
  method AnswerStream(connection: Http2Connection, writer: FrameWriter, ctx: NetworkContext, id: int32, stream: Http2Stream,
                      nexts: nat, ghost step: StreamStep, ghost o: Outcome, ghost items: Items, ghost before: Bytes)
    returns (r: Result<()>, count: nat)
    requires connection.Valid() && writer.Valid() && !o.escaped && Processes(step, connection.encoder.table.maxSize)
    requires connection.streams == o.streams && connection.encoder.table.entries == o.entries && nexts == o.nexts
    requires id in o.streams && stream == o.streams[id] && D.Fits(o.entries, connection.encoder.table.maxSize)
    requires writer.stream.output == before + Sent(o.written) && ctx.items == WithCurrent(items, o.current)
    modifies connection, writer.stream, writer.headerBuffer, connection.encoder.table, ctx
    ensures connection.Valid() && writer.Valid() && connection.Parts() == old(connection.Parts())
    ensures connection.encoder.table.maxSize == old(connection.encoder.table.maxSize)
    ensures writer.stream.input == old(writer.stream.input) && writer.stream.pos == old(writer.stream.pos)
    ensures writer.stream.disposed == old(writer.stream.disposed) && ctx.connection == old(ctx.connection)
    ensures Reflects(connection, writer, ctx, items, before, Take(o, id, stream, step(stream, o.entries)), count)
    ensures var v := Take(o, id, stream, step(stream, o.entries)); (r.Err? <==> v.escaped) && (r.Err? ==> r == Err(ArgumentError))
  {
    ghost var p := step(stream, o.entries);
    ctx.items := ctx.items["HTTP_CONTEXT" := Http2StreamItem(stream)];
    assert ctx.items == WithCurrent(items, Some(stream));
    ghost var mid := writer.stream.output;
    var updated;
    updated, r := ProcessStream(writer, connection.encoder, stream, step);
    SentAfter(before, mid, writer.stream.output, o.written, p.written);
    count := nexts;
    if r.Err? {
      TakeEscaped(o, id, stream, p);
      return;
    }
    count := count + 1;
    connection.streams := connection.streams[id := updated.(responseSent := true)];
    TakeServed(o, id, stream, p);
  }

  /**
   * The loop of InvokeAsync over the connection's stream table, in the
   * order the dictionary enumerates it (`order`, which the model leaves
   * open): the scan `Serve` over that order, stopped by an exception that
   * escapes.
   */
  method ServeStreams(connection: Http2Connection, ctx: NetworkContext, ghost step: StreamStep)
    returns (r: Result<()>, nexts: nat, ghost order: seq<int32>)
    requires connection.Attached()
    requires Processes(step, connection.encoder.table.maxSize) && Disciplined(step, connection.encoder.table.maxSize)
    modifies connection, connection.writer.stream, connection.writer.headerBuffer, connection.encoder.table, ctx
    ensures connection.Attached() && connection.Parts() == old(connection.Parts())
    ensures connection.encoder.table.maxSize == old(connection.encoder.table.maxSize)
    ensures connection.reader.stream.input == old(connection.reader.stream.input)
    ensures connection.reader.stream.pos == old(connection.reader.stream.pos)
    ensures connection.reader.stream.disposed == old(connection.reader.stream.disposed) && ctx.connection == old(ctx.connection)
    ensures Distinct(order) && (forall k :: k in order ==> k in old(connection.streams))
    ensures var o := Serve(step, old(connection.streams), old(connection.encoder.table.entries), order);
      && connection.streams == o.streams && connection.encoder.table.entries == o.entries && nexts == o.nexts
      && connection.writer.stream.output == old(connection.writer.stream.output) + Sent(o.written)
      && ctx.items == WithCurrent(old(ctx.items), o.current)
      && (r.Err? <==> o.escaped) && (r.Err? ==> r == Err(ArgumentError))
      && (!o.escaped ==> forall k :: k in old(connection.streams) ==> k in order)
  {
    var writer := connection.writer;
    ghost var maxSize := connection.encoder.table.maxSize;
    ghost var streams := connection.streams;
    ghost var entries := connection.encoder.table.entries;
    ghost var items := ctx.items;
    ghost var before := writer.stream.output;
    var ids := connection.streams.Keys;
    order := [];
    nexts := 0;
    r := Ok(());
    NothingSent(before);
    while ids != {}
      invariant connection.Attached() && connection.Parts() == old(connection.Parts()) && writer == connection.writer
      invariant connection.encoder.table.maxSize == maxSize
      invariant writer.stream.input == old(writer.stream.input) && writer.stream.pos == old(writer.stream.pos)
      invariant writer.stream.disposed == old(writer.stream.disposed) && ctx.connection == old(ctx.connection)
      invariant r.Ok? && Pending(order, ids, streams.Keys)
      invariant !Serve(step, streams, entries, order).escaped
      invariant Reflects(connection, writer, ctx, items, before, Serve(step, streams, entries, order), nexts)
      decreases ids
    {
      var id :| id in ids;
      ghost var o := Serve(step, streams, entries, order);
      ServeKeeps(step, maxSize, streams, entries, order);
      r, nexts := VisitStream(connection, writer, ctx, id, nexts, step, o, items, before);
      PendingStep(order, ids, streams.Keys, id);
      ghost var prev := order;
      order := order + [id];
      ids := ids - {id};
      ServeSnoc(step, streams, entries, prev, id);
      if r.Err? {
        return;
      }
    }
  }

  /**
   * InvokeAsync: without an HTTP/2 connection under "http2" the context
   * goes on to `next` once; with one, every ready stream is answered and
   * handed to `next`, in the order the stream table enumerates its ids.
   */
  method InvokeAsync(ctx: NetworkContext) returns (r: Result<()>, nexts: nat, ghost order: seq<int32>)
    requires Http2Of(ctx.items, "http2").Some? ==> Http2Of(ctx.items, "http2").value.Attached()
    modifies ctx
    modifies if Http2Of(ctx.items, "http2").Some? then
               var c := Http2Of(ctx.items, "http2").value;
               {c, c.writer.stream, c.writer.headerBuffer, c.encoder.table}
             else {}
    ensures ctx.connection == old(ctx.connection)
    ensures old(Http2Of(ctx.items, "http2")).None? ==> r == Ok(()) && nexts == 1 && ctx.items == old(ctx.items)
    ensures old(Http2Of(ctx.items, "http2")).Some? ==>
      var c := old(Http2Of(ctx.items, "http2")).value;
      && c.Attached() && c.Parts() == old(c.Parts())
      && Distinct(order) && (forall k :: k in order ==> k in old(c.streams))
      && var o := Serve(Answer(c.encoder.table.maxSize), old(c.streams), old(c.encoder.table.entries), order);
      && c.streams == o.streams && c.encoder.table.entries == o.entries && nexts == o.nexts
      && c.writer.stream.output == old(c.writer.stream.output) + Sent(o.written)
      && ctx.items == WithCurrent(old(ctx.items), o.current)
      && (r.Err? <==> o.escaped) && (r.Err? ==> r == Err(ArgumentError))
      && (!o.escaped ==> forall k :: k in old(c.streams) ==> k in order)
  {
    var found := Http2Of(ctx.items, "http2");
    if found.None? {
      return Ok(()), 1, [];
    }
    var connection := found.value;
    AnswerDisciplined(connection.encoder.table.maxSize);
    AnswerProcesses(connection.encoder.table.maxSize);
    r, nexts, order := ServeStreams(connection, ctx, Answer(connection.encoder.table.maxSize));
  }
}
