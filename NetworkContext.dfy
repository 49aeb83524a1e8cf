/**
 * The per-connection context every pipeline step receives (NetworkContext):
 * the connection it talks to and the `Items` dictionary through which steps
 * hand values to later steps. An item is one of the kinds of value the steps
 * store.
 */
module NetworkContext {
  import opened Common
  import opened Channel
  import opened HttpMessage
  import opened Http2Connection
  import opened PeekStreams
  import opened Http1Syntax
  import opened Http1Context

  /** DetectedProtocol / HttpProtocol: what the detection steps classify a connection as. */
  datatype Protocol = Unknown | Http1 | Http2 | Tls

  /** The values the steps store under the context's item keys. */
  datatype Item =
    | ProtocolItem(protocol: Protocol)
    | StreamItem(stream: Channel)
    | Http2Item(connection: Http2Connection)
    | Http2StreamItem(http2Stream: Http2Stream)
    | RequestItem(request: Request)
    | FlagItem(flag: bool)
      // a peek stream over the TCP stream, and the stream it reads as (PeekStreams.Wrapped)
    | SpliceItem(splice: SpliceStream, view: Channel)
      // the request an HTTP/1 step hands to the next step: its request line and headers
    | Http1Item(line: RequestLine, headers: seq<Header>)
      // the live HTTP context the WRM.Core HTTP/1 step hands to the next step
    | Http1ContextItem(context: Http1Context)

  type Items = map<string, Item>

  /**
   * The item keys of the WRM/WRM.Core steps (its `Names` class, whose file
   * is not part of this model): distinct strings standing in for its values.
   */
  const TcpStreamKey: string := "TcpStream"
  const HttpProtocolKey: string := "HttpProtocol"
  const HttpContextKey: string := "HttpContext"
  const IsSslKey: string := "IsSsl"

  /** `Items.TryGetValue(key, out var x) && x is Http2Connection c`. */
  function Http2Of(items: Items, key: string): Option<Http2Connection>
  {
    if key in items && items[key].Http2Item? then Some(items[key].connection) else None
  }

  /** `Items.TryGetValue(key, out var p) && (Protocol)p == protocol`. */
  predicate HasProtocol(items: Items, key: string, protocol: Protocol)
  {
    key in items && items[key].ProtocolItem? && items[key].protocol == protocol
  }

  /**
   * `Items.TryGetValue(TcpStream, out var o) && o is Stream stream`: the
   * TCP stream itself, or the stream a peek stream stored in its place
   * reads as.
   */
  function StreamOf(items: Items): Option<Channel>
  {
    if TcpStreamKey !in items then None
    else match items[TcpStreamKey]
      case StreamItem(stream) => Some(stream)
      case SpliceItem(_, view) => Some(view)
      case _ => None
  }

  /** The stream item as a frame. */
  function Streams(items: Items): set<Channel>
  {
    if StreamOf(items).Some? then {StreamOf(items).value} else {}
  }

  class NetworkContext {
    var connection: Channel
    var items: Items
    /**
     * Set once Connection has been replaced by a WrappedConnection whose
     * stream is this peek stream over the original connection; `connection`
     * is then the stream that WrappedConnection presents (PeekStreams.Wrapped).
     * None while Connection is the original one.
     */
    var peek: Option<ReplayStream>

    constructor (connection: Channel)
      ensures this.connection == connection && items == map[] && peek == None
    {
      this.connection := connection;
      items := map[];
      peek := None;
    }
  }
}
