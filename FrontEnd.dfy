/**
 * The front of a pipeline as the hosts register it: a detection step, then
 * the protocol engine it selects. Each method runs the two steps one after
 * the other on the same context and states that the engine reads what the
 * peer sent from its very first octet: the octets the detection step
 * sniffed are handed out again before the rest of the connection.
 */
module FrontEnd {
  import opened Common
  import opened Channel
  import opened NetworkContext
  import ProtocolDetection
  import HttpProtocolDetection
  import WrmProtocolDetection
  import CoreHttp1ParsingStep
  import Http1ParsingStep
  import ParseHttp1Step
  import Http2PrefaceStep
  import Http2Settings
  import HpackStaticTable
  import Http2FrameIO

  /**
   * ProtocolDetection, then the WRM.Core HTTP/1 step: when the sniffed
   * octets (`sniffed` of them) look like HTTP/1, the request is parsed from
   * the start of everything the peer sent.
   */
  method DetectThenParse(ctx: NetworkContext) returns (nexts: nat, ghost sniffed: nat)
    requires ctx.connection.Valid()
    modifies ctx, ctx.connection
    ensures var sent := old(ctx.connection.Remaining());
      sniffed <= |sent| && sniffed <= ProtocolDetection.PeekSize
      && var detected := ProtocolDetection.Detect(sent[..sniffed]);
      "protocol" in ctx.items && ctx.items["protocol"] == ProtocolItem(detected)
      && ctx.connection.Valid() && ctx.connection.input == sent
      && (detected != Http1 ==> ctx.connection.pos == 0 && nexts == 2)
      && (detected == Http1 ==>
            var o := CoreHttp1ParsingStep.RequestAt(sent, 0);
            ctx.connection.pos == o.end
            && (o.request.None? ==> nexts == 1)
            && (o.request.Some? ==> nexts == 2 && "http" in ctx.items && ctx.items["http"] == RequestItem(o.request.value)))
  {
    ghost var original := ctx.connection;
    ghost var p0 := original.pos;
    var first := ProtocolDetection.InvokeAsync(ctx);
    sniffed := original.pos - p0;
    assert original.input[p0..original.pos] == old(ctx.connection.Remaining())[..sniffed];
    var second := CoreHttp1ParsingStep.InvokeAsync(ctx);
    nexts := first + second;
  }

  /**
   * ProtocolDetection, then the WRM.Core HTTP/2 preface step: when the
   * sniffed octets are the preface, the handshake reads the whole preface,
   * and everything after it, from the start of what the peer sent.
   */
  method DetectThenHandshake(ctx: NetworkContext, huffman: Bytes -> HpackStaticTable.HString) returns (r: Result<()>, nexts: nat, ghost sniffed: nat, ghost got: nat)
    requires ctx.connection.Valid()
    modifies ctx, ctx.connection
    ensures var sent := old(ctx.connection.Remaining());
      sniffed <= |sent| && sniffed <= ProtocolDetection.PeekSize
      && var detected := ProtocolDetection.Detect(sent[..sniffed]);
      ctx.connection.Valid() && ctx.connection.input == sent
      && (detected != Http2 ==> r == Ok(()) && nexts == 2 && ctx.connection.pos == 0)
      && (detected == Http2 ==>
            got <= 24 && got <= |sent| && (got == 0 <==> sent == [])
            && var h := Http2PrefaceStep.HandshakeSpec(sent, got, Http2Settings.Defaults, Http2Settings.Defaults);
            r == h.result && ctx.connection.pos == h.consumed
            && ctx.connection.output == old(ctx.connection.output) + Http2FrameIO.Sent(h.written)
            && nexts == (if r.Ok? then 2 else 1))
  {
    ghost var original := ctx.connection;
    ghost var p0 := original.pos;
    var first := ProtocolDetection.InvokeAsync(ctx);
    sniffed := original.pos - p0;
    assert original.input[p0..original.pos] == old(ctx.connection.Remaining())[..sniffed];
    var second;
    ghost var conn;
    r, second, got, conn := Http2PrefaceStep.InvokeAsync(ctx, huffman);
    nexts := first + second;
  }

  /**
   * HttpProtocolDetection, then the WRM.HTTP.HTTP1 request loop: when the
   * sniffed octets look like HTTP/1, the loop serves the connection from
   * the start of what the peer sent.
   */
  method DetectThenServe(ctx: NetworkContext, handler: Http1ParsingStep.Handler, date: string) returns (nexts: nat, ghost sniffed: nat)
    requires ctx.connection.Valid()
    modifies ctx, ctx.connection
    ensures var sent := old(ctx.connection.Remaining());
      sniffed <= |sent| && sniffed <= HttpProtocolDetection.PeekSize
      && var detected := HttpProtocolDetection.Detect(sent[..sniffed]);
      ctx.connection.Valid() && ctx.connection.input == sent
      && (detected != Http1 ==> nexts == 2 && ctx.connection.output == old(ctx.connection.output))
      && (detected == Http1 ==>
            var s := Http1ParsingStep.Serve(sent, 0, true, handler, date);
            ctx.connection.output == old(ctx.connection.output) + s.output && nexts == 1 + s.requests)
  {
    ghost var original := ctx.connection;
    ghost var p0 := original.pos;
    var first := HttpProtocolDetection.InvokeAsync(ctx);
    sniffed := original.pos - p0;
    assert original.input[p0..original.pos] == old(ctx.connection.Remaining())[..sniffed];
    var second := Http1ParsingStep.InvokeAsync(ctx, handler, date);
    nexts := first + second;
  }

  /**
   * The WRM/WRM.Core detection step, then its HTTP/1 step: when the TCP
   * stream item holds a stream and the sniffed octets look like HTTP/1,
   * the HTTP/1 step serves, through the peek stream stored in its place,
   * everything the peer sent from its start.
   */
  method SniffThenServe(ctx: NetworkContext, handler: ParseHttp1Step.CoreHandler, date: string)
    returns (nexts: nat, failed: bool, ghost sniffed: nat)
    requires StreamOf(ctx.items).Some? && StreamOf(ctx.items).value.Valid()
    modifies ctx, Streams(ctx.items)
    ensures var tcp := StreamOf(old(ctx.items)).value;
      var sent := old(tcp.Remaining());
      sniffed <= |sent| && sniffed <= WrmProtocolDetection.PeekSize
      && var detected := WrmProtocolDetection.Detect(sent[..sniffed]);
      StreamOf(ctx.items).Some? && var view := StreamOf(ctx.items).value;
      view.Valid() && view.input == sent
      && (detected != Http1 ==> nexts == 2 && !failed && view.output == tcp.output)
      && (detected == Http1 ==>
            var s := ParseHttp1Step.ServeCore(sent, 0, ParseHttp1Step.IsSslOf(old(ctx.items)), handler, date);
            view.output == old(tcp.output) + s.output && nexts == 1 + s.requests && failed == s.failed)
  {
    ghost var tcp := StreamOf(ctx.items).value;
    ghost var p0 := tcp.pos;
    var first := WrmProtocolDetection.InvokeAsync(ctx);
    sniffed := tcp.pos - p0;
    assert tcp.input[p0..tcp.pos] == old(tcp.Remaining())[..sniffed];
    assert ParseHttp1Step.IsSslOf(ctx.items) == ParseHttp1Step.IsSslOf(old(ctx.items));
    var second;
    second, failed := ParseHttp1Step.InvokeAsync(ctx, handler, date);
    nexts := first + second;
  }
}
