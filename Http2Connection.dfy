/**
 * One HTTP/2 connection (Http2Connection): the table of streams keyed by
 * stream id, the settings of both sides, the frame reader and writer over
 * the network stream, the HPACK encoder and decoder, and the counter for
 * locally initiated stream ids.
 *
 * A stream (Http2Stream) is stored in the table as a value; the steps that
 * change a stream store the changed value back under its id.
 */
module Http2Connection {
  import opened Common
  import opened Channel
  import opened Http2Settings
  import opened Http2FrameIO
  import opened HpackStaticTable
  import Dec = HpackDecoder
  import Enc = HpackEncoder
  import opened HttpMessage

  /** The stream states of section 5.1 of RFC 7540 (Http2StreamState). */
  datatype StreamState = Idle | ReservedLocal | ReservedRemote | Open | HalfClosedLocal | HalfClosedRemote | Closed

  /**
   * Http2Stream: its id and state, the request built from its HEADERS, the
   * body collected from its DATA frames, and three progress flags.
   */
  datatype Http2Stream = Http2Stream(
    id: int32,
    state: StreamState,
    request: Option<Request>,
    body: Option<Bytes>,
    headersReceived: bool,
    endStreamReceived: bool,
    responseSent: bool)

  type StreamTable = map<int32, Http2Stream>

  /** The stream GetOrCreateStream creates: `Id = id, State = Idle`, every other member at its default. */
  function NewStream(id: int32): Http2Stream
  {
    Http2Stream(id, Idle, None, None, false, false, false)
  }

  /** The table after `Streams.GetOrAdd(id, ...)`: an existing stream is kept, a missing one is added as Idle. */
  function GetOrAdd(streams: StreamTable, id: int32): (r: StreamTable)
    ensures id in r && r[id] == (if id in streams then streams[id] else NewStream(id))
    ensures r.Keys == streams.Keys + {id}
    ensures forall k :: k in streams ==> r[k] == streams[k]
  {
    if id in streams then streams else streams[id := NewStream(id)]
  }

  /** Every stream is stored under its own id. */
  predicate WellKeyed(streams: StreamTable)
  {
    forall k :: k in streams ==> streams[k].id == k
  }

  lemma GetOrAddWellKeyed(streams: StreamTable, id: int32)
    requires WellKeyed(streams)
    ensures WellKeyed(GetOrAdd(streams, id))
  {
  }

  /** What the frame dispatcher reads and changes: the stream table, the peer's settings and the decoder's table. */
  datatype ConnState = ConnState(streams: StreamTable, remote: Values, table: Dec.TableState)

  /** The HPACK dynamic table size both codecs start with. */
  const DefaultTableSize: int32 := 4096

  class Http2Connection {
    var streams: StreamTable
    const localSettings: Settings
    const remoteSettings: Settings
    var reader: FrameReader?
    var writer: FrameWriter?
    const encoder: Enc.Encoder
    const decoder: Dec.Decoder
    var nextStreamId: int32
    var isServer: bool
    var handshakeComplete: bool

    ghost predicate Valid()
      reads this, encoder, encoder.table, decoder, decoder.table
    {
      encoder.Valid() && decoder.Valid() && localSettings != remoteSettings && encoder.table != decoder.table
    }

    /** Initialize has run: the reader and the writer work on one stream. */
    ghost predicate Attached()
      reads this, encoder, encoder.table, decoder, decoder.table, reader, writer
      reads if reader != null then {reader.stream} else {}
    {
      && Valid()
      && reader != null && writer != null && reader.stream == writer.stream
      && reader.stream.Valid() && reader.headerBuffer.Length == 9 && writer.headerBuffer.Length == 9
      && reader.headerBuffer != writer.headerBuffer
    }

    /** The members other than the stream table, which no stream operation touches. */
    function Parts(): (FrameReader?, FrameWriter?, int32, bool, bool)
      reads this
    {
      (reader, writer, nextStreamId, isServer, handshakeComplete)
    }

    /** The objects the frame dispatcher may change. */
    function Footprint(): set<object>
      reads this
    {
      {this, remoteSettings, decoder.table}
        + (if reader != null then {reader.stream, reader.headerBuffer} else {})
        + (if writer != null then {writer.headerBuffer} else {})
    }

    function Snapshot(): ConnState
      reads this, remoteSettings, decoder, decoder.table
    {
      ConnState(streams, remoteSettings.Value(), decoder.State())
    }

    /**
     * `new Http2Connection()`: no streams, default settings on both sides,
     * empty 4096-octet HPACK tables, next id 1, handshake not complete.
     * The Huffman decoder the HPACK decoder uses is a parameter.
     */
    constructor (huffman: Bytes -> HString)
      ensures Valid() && streams == map[] && nextStreamId == 1 && !isServer && !handshakeComplete
      ensures reader == null && writer == null
      ensures localSettings.Value() == Defaults && remoteSettings.Value() == Defaults
      ensures encoder.table.entries == [] && encoder.table.maxSize == DefaultTableSize
      ensures decoder.State() == Dec.TableState([], DefaultTableSize) && decoder.huffman == huffman
      ensures fresh(localSettings) && fresh(remoteSettings)
      ensures fresh(encoder) && fresh(encoder.table) && fresh(decoder) && fresh(decoder.table)
    {
      streams := map[];
      localSettings := new Settings();
      remoteSettings := new Settings();
      reader := null;
      writer := null;
      encoder := new Enc.Encoder(DefaultTableSize);
      decoder := new Dec.Decoder(DefaultTableSize, huffman);
      nextStreamId := 1;
      isServer := false;
      handshakeComplete := false;
    }

    /**
     * Initialize: a new reader and writer over the stream; a server numbers
     * its own streams from 2, a client from 1.
     */
    method Initialize(networkStream: Channel, isServer: bool)
      requires Valid() && networkStream.Valid()
      modifies this
      ensures Attached() && reader.stream == networkStream && fresh(reader) && fresh(writer)
      ensures fresh(reader.headerBuffer) && fresh(writer.headerBuffer)
      ensures this.isServer == isServer && nextStreamId == (if isServer then 2 else 1)
      ensures streams == old(streams) && handshakeComplete == old(handshakeComplete)
    {
      this.isServer := isServer;
      reader := new FrameReader(networkStream);
      writer := new FrameWriter(networkStream);
      nextStreamId := if isServer then 2 else 1;
    }

    /** GetNextStreamId: the current id; the counter moves on by two, wrapping as an unchecked int. */
    method GetNextStreamId() returns (id: int32)
      modifies this
      ensures id == old(nextStreamId) && nextStreamId == NextId(id)
      ensures streams == old(streams) && reader == old(reader) && writer == old(writer)
      ensures isServer == old(isServer) && handshakeComplete == old(handshakeComplete)
    {
      id := nextStreamId;
      nextStreamId := Wrap32(nextStreamId + 2);
    }

    /** GetOrCreateStream: the stream stored under the id, created Idle when missing. */
    method GetOrCreateStream(streamId: int32) returns (s: Http2Stream)
      modifies this
      ensures streams == GetOrAdd(old(streams), streamId) && s == streams[streamId]
      ensures Parts() == old(Parts())
    {
      streams := GetOrAdd(streams, streamId);
      s := streams[streamId];
    }

    /** RemoveStream: whether the id was present; afterwards it is not. */
    method RemoveStream(streamId: int32) returns (removed: bool)
      modifies this
      ensures removed == (streamId in old(streams)) && streams == old(streams) - {streamId}
      ensures Parts() == old(Parts())
    {
      removed := streamId in streams;
      streams := streams - {streamId};
    }
  }

  /** The counter after one GetNextStreamId. */
  function NextId(id: int32): (r: int32)
    ensures r % 2 == id % 2
    ensures id + 2 < TWO31 ==> r == id + 2
  {
    Wrap32(id + 2)
  }

  /** The ids `n` calls of GetNextStreamId return, starting from the counter `start`. */
  function Allocated(start: int32, n: nat): (r: seq<int32>)
    ensures |r| == n
    decreases n
  {
    if n == 0 then [] else [start] + Allocated(NextId(start), n - 1)
  }

  /**
   * While the counter does not pass 2^31 - 1, successive ids strictly increase
   * by two and all have the parity of the first.
   */
  lemma {:induction false} AllocatedIncreasing(start: int32, n: nat)
    requires start + 2 * n <= TWO31
    decreases n
    ensures forall i :: 0 <= i < n ==> Allocated(start, n)[i] == start + 2 * i
    ensures forall i :: 0 <= i < n ==> Allocated(start, n)[i] % 2 == start % 2
  {
    if n > 0 {
      AllocatedIncreasing(NextId(start), n - 1);
      var r := Allocated(start, n);
      forall i | 0 < i < n
        ensures r[i] == start + 2 * i
      {
        assert r[i] == Allocated(NextId(start), n - 1)[i - 1];
      }
    }
  }

  /** Parity holds for every id, even after the counter wraps. */
  lemma {:induction false} AllocatedParity(start: int32, n: nat)
    ensures forall i :: 0 <= i < n ==> Allocated(start, n)[i] % 2 == start % 2
    decreases n
  {
    if n > 0 {
      AllocatedParity(NextId(start), n - 1);
      var r := Allocated(start, n);
      forall i | 0 < i < n
        ensures r[i] % 2 == start % 2
      {
        assert r[i] == Allocated(NextId(start), n - 1)[i - 1];
      }
    }
  }
}
