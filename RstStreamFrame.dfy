/**
 * The RST_STREAM frame (section 6.4 of RFC 7540): one 32-bit error code.
 */
module RstStreamFrame {
  import opened Common
  import opened Http2Frame

  /** Error codes of section 7 of RFC 7540. */
  const NO_ERROR: uint32 := 0x0
  const PROTOCOL_ERROR: uint32 := 0x1
  const INTERNAL_ERROR: uint32 := 0x2
  const FLOW_CONTROL_ERROR: uint32 := 0x3
  const SETTINGS_TIMEOUT: uint32 := 0x4
  const STREAM_CLOSED: uint32 := 0x5
  const FRAME_SIZE_ERROR: uint32 := 0x6
  const REFUSED_STREAM: uint32 := 0x7
  const CANCEL: uint32 := 0x8

  datatype RstStreamFrame = RstStreamFrame(errorCode: uint32)

  /** RstStreamFrame.Parse: the error code is the big-endian payload word. */
  function Parse(f: Frame): (r: Result<RstStreamFrame>)
    requires f.Consistent()
    ensures r.Ok? <==> f.frameType == RST_STREAM && f.streamId != 0 && f.length == 4
    ensures r.Ok? ==> ToBE32(r.value.errorCode) == f.payload
  {
    if f.frameType != RST_STREAM then Err(ArgumentError)
    else if f.streamId == 0 then Err(InvalidOperation)
    else if f.length != 4 then Err(InvalidOperation)
    else
      ToBE32Of(f.payload, 0);
      Ok(RstStreamFrame(BE32(f.payload, 0)))
  }

  /** RstStreamFrame.ToFrame: a four-octet frame with no flags on a non-zero stream. */
  function ToFrame(rst: RstStreamFrame, streamId: int32): (r: Result<Frame>)
    ensures r.Ok? <==> streamId != 0
    ensures r.Ok? ==> r.value.Consistent() && r.value.length == 4 && r.value.flags == 0
    ensures r.Ok? ==> r.value.frameType == RST_STREAM && r.value.streamId == streamId
  {
    if streamId == 0 then Err(ArgumentError)
    else Ok(Frame(4, RST_STREAM, 0, streamId, ToBE32(rst.errorCode)))
  }

  /** Every 32-bit error code survives ToFrame and Parse. */
  lemma ParseToFrame(rst: RstStreamFrame, streamId: int32)
    requires streamId != 0
    ensures Parse(ToFrame(rst, streamId).value) == Ok(rst)
  {
  }

  /** A consistent RST_STREAM frame that parses is rebuilt by ToFrame, up to its flags. */
  lemma ToFrameParse(f: Frame)
    requires f.Consistent() && Parse(f).Ok?
    ensures ToFrame(Parse(f).value, f.streamId) == Ok(f.(flags := 0))
  {
  }
}
