/**
 * The PING frame (section 6.7 of RFC 7540): eight opaque octets and the ACK flag.
 */
module PingFrame {
  import opened Common
  import opened Http2Frame

  datatype PingFrame = PingFrame(opaqueData: Bytes, ack: bool)

  /** PingFrame.Parse: checks the type, stream 0 and the Length field. */
  function Parse(f: Frame): (r: Result<PingFrame>)
    ensures r.Ok? ==> r.value.opaqueData == f.payload && r.value.ack == f.Ack()
  {
    if f.frameType != PING then Err(ArgumentError)
    else if f.streamId != 0 then Err(InvalidOperation)
    else if f.length != 8 then Err(InvalidOperation)
    else Ok(PingFrame(f.payload, f.Ack()))
  }

  /** PingFrame.ToFrame: exactly eight octets of opaque data are required. */
  function ToFrame(p: PingFrame): (r: Result<Frame>)
    ensures r.Ok? <==> |p.opaqueData| == 8
    ensures r.Ok? ==> r.value.Consistent() && r.value.frameType == PING && r.value.streamId == 0
    ensures r.Ok? ==> r.value.Ack() == p.ack && r.value.payload == p.opaqueData
  {
    if |p.opaqueData| != 8 then Err(InvalidOperation)
    else Ok(Frame(8, PING, if p.ack then ACK else 0, 0, p.opaqueData))
  }

  /** Parse accepts exactly the PING frames on stream 0 whose Length is 8. */
  lemma ParseAccepts(f: Frame)
    ensures Parse(f).Ok? <==> f.frameType == PING && f.streamId == 0 && f.length == 8
    ensures Parse(f).Err? ==> Parse(f).failure == (if f.frameType != PING then ArgumentError else InvalidOperation)
  {
  }

  /** Every frame ToFrame produces parses back to the same data and flag. */
  lemma ParseToFrame(p: PingFrame)
    requires |p.opaqueData| == 8
    ensures Parse(ToFrame(p).value) == Ok(p)
  {
  }

  /**
   * Conversely, a consistent PING frame that parses is rebuilt by ToFrame,
   * up to the flag bits other than ACK.
   */
  lemma ToFrameParse(f: Frame)
    requires f.Consistent() && Parse(f).Ok?
    ensures ToFrame(Parse(f).value) == Ok(f.(flags := if f.Ack() then ACK else 0))
  {
  }
}
