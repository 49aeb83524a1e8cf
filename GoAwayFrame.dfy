/**
 * The GOAWAY frame (section 6.8 of RFC 7540): last stream id, error code and
 * opaque debug data.
 */
module GoAwayFrame {
  import opened Common
  import opened Http2Frame

  /** Error codes of section 7 of RFC 7540. */
  const NO_ERROR: uint32 := 0x0
  const PROTOCOL_ERROR: uint32 := 0x1
  const INTERNAL_ERROR: uint32 := 0x2
  const FLOW_CONTROL_ERROR: uint32 := 0x3
  const SETTINGS_TIMEOUT: uint32 := 0x4
  const STREAM_CLOSED: uint32 := 0x5
  const FRAME_SIZE_ERROR: uint32 := 0x6
  const REFUSED_STREAM: uint32 := 0x7
  const CANCEL: uint32 := 0x8
  const COMPRESSION_ERROR: uint32 := 0x9
  const CONNECT_ERROR: uint32 := 0xa
  const ENHANCE_YOUR_CALM: uint32 := 0xb
  const INADEQUATE_SECURITY: uint32 := 0xc
  const HTTP_1_1_REQUIRED: uint32 := 0xd

  datatype GoAwayFrame = GoAwayFrame(lastStreamId: int32, errorCode: uint32, debugData: Bytes)

  /** GoAwayFrame.Parse: two big-endian words, the first with its reserved bit cleared, then the debug data. */
  function Parse(f: Frame): (r: Result<GoAwayFrame>)
    requires f.Consistent()
    ensures r.Ok? <==> f.frameType == GOAWAY && f.streamId == 0 && f.length >= 8
    ensures r.Ok? ==> 0 <= r.value.lastStreamId < TWO31 && |r.value.debugData| == f.length - 8
  {
    if f.frameType != GOAWAY then Err(ArgumentError)
    else if f.streamId != 0 then Err(InvalidOperation)
    else if f.length < 8 then Err(InvalidOperation)
    else Ok(GoAwayFrame(Low31(BE32(f.payload, 0)), BE32(f.payload, 4), f.payload[8..]))
  }

  /**
   * GoAwayFrame.ToFrame: the last stream id is written `& 0x7FFFFFFF`. The
   * debug data must be short enough for the int sum 8 + DebugData.Length.
   */
  function ToFrame(g: GoAwayFrame): (r: Frame)
    requires 8 + |g.debugData| < TWO31
    ensures r.Consistent() && r.length == 8 + |g.debugData|
    ensures r.frameType == GOAWAY && r.streamId == 0 && r.flags == 0
  {
    var payload := ToBE32(Low31(g.lastStreamId)) + ToBE32(g.errorCode) + g.debugData;
    Frame(|payload|, GOAWAY, 0, 0, payload)
  }

  /**
   * Parse undoes ToFrame; the last stream id comes back masked to 31 bits,
   * which is the id itself when it is not negative.
   */
  lemma ParseToFrame(g: GoAwayFrame)
    requires 8 + |g.debugData| < TWO31
    ensures Parse(ToFrame(g)) == Ok(g.(lastStreamId := Low31(g.lastStreamId)))
    ensures 0 <= g.lastStreamId ==> Parse(ToFrame(g)) == Ok(g)
  {
    var a, b := ToBE32(Low31(g.lastStreamId)), ToBE32(g.errorCode);
    var p := a + b + g.debugData;
    BE32At([], Low31(g.lastStreamId), b + g.debugData);
    assert [] + a + (b + g.debugData) == p;
    BE32At(a, g.errorCode, g.debugData);
    assert p[8..] == g.debugData;
  }

  /** A GOAWAY frame that parses is rebuilt by ToFrame, up to its flags and the reserved bit. */
  lemma ToFrameParse(f: Frame)
    requires f.Consistent() && f.length <= 0xFF_FFFF && Parse(f).Ok? && f.payload[0] < 0x80
    ensures ToFrame(Parse(f).value) == f.(flags := 0)
  {
    var p := f.payload;
    var g := Parse(f).value;
    assert BE32(p, 0) < TWO31;
    assert Low31(g.lastStreamId) == BE32(p, 0);
    ToBE32Of(p, 0);
    ToBE32Of(p, 4);
    assert ToFrame(g).payload == p[0..4] + p[4..8] + p[8..];
    assert p == p[0..4] + p[4..8] + p[8..];
  }

  /**
   * GoAwayFrame.GetDebugMessage: the UTF-8 decoding of the debug data, which
   * is the empty string when there is none. The decoder is a parameter.
   */
  function DebugMessage(g: GoAwayFrame, utf8: Bytes -> string): (r: string)
    ensures g.debugData == [] ==> r == ""
    ensures g.debugData != [] ==> r == utf8(g.debugData)
  {
    if |g.debugData| == 0 then "" else utf8(g.debugData)
  }
}
