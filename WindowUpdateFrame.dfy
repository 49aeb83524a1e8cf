/**
 * The WINDOW_UPDATE frame (section 6.9 of RFC 7540): a 31-bit window size
 * increment, which must not be zero.
 */
module WindowUpdateFrame {
  import opened Common
  import opened Http2Frame

  datatype WindowUpdateFrame = WindowUpdateFrame(windowSizeIncrement: uint32)

  /** WindowUpdateFrame.Parse: the stream id is not checked; the reserved bit is dropped. */
  function Parse(f: Frame): (r: Result<WindowUpdateFrame>)
    requires f.Consistent()
    ensures r.Ok? ==> 0 < r.value.windowSizeIncrement < TWO31
    ensures r.Ok? ==> f.length == 4 && r.value.windowSizeIncrement == BE32(f.payload, 0) % TWO31
  {
    if f.frameType != WINDOW_UPDATE then Err(ArgumentError)
    else if f.length != 4 then Err(InvalidOperation)
    else
      var increment := Low31(BE32(f.payload, 0));
      if increment == 0 then Err(InvalidOperation)
      else Ok(WindowUpdateFrame(increment))
  }

  /** Parse accepts exactly the four-octet WINDOW_UPDATE frames whose low 31 bits are not all zero. */
  lemma ParseAccepts(f: Frame)
    requires f.Consistent()
    ensures Parse(f).Ok? <==> f.frameType == WINDOW_UPDATE && f.length == 4 && BE32(f.payload, 0) % TWO31 != 0
  {
  }

  /**
   * WindowUpdateFrame.ToFrame as written: only a zero increment is refused,
   * and the increment is written with its top bit cleared.
   */
  function ToFrameAsWritten(w: WindowUpdateFrame, streamId: int32): (r: Result<Frame>)
    ensures r.Ok? <==> w.windowSizeIncrement != 0
    ensures r.Ok? ==> r.value.Consistent() && r.value.frameType == WINDOW_UPDATE && r.value.flags == 0
    ensures r.Ok? ==> r.value.length == 4 && BE32(r.value.payload, 0) == w.windowSizeIncrement % TWO31
  {
    if w.windowSizeIncrement == 0 then Err(InvalidOperation)
    else Ok(Frame(4, WINDOW_UPDATE, 0, streamId, ToBE32(Low31(w.windowSizeIncrement))))
  }

  /** The increment 0x80000000 passes ToFrame as written, and the frame it yields fails Parse. */
  lemma AsWrittenTopBitOnly(streamId: int32)
    ensures var r := ToFrameAsWritten(WindowUpdateFrame(0x8000_0000), streamId);
      r.Ok? && Parse(r.value) == Err(InvalidOperation)
  {
    var r := ToFrameAsWritten(WindowUpdateFrame(0x8000_0000), streamId);
    assert r.value.payload == [0, 0, 0, 0];
  }

  /**
   * ToFrame refusing every increment outside 1..2^31-1, the range section 6.9
   * of RFC 7540 allows.
   */
  function ToFrame(w: WindowUpdateFrame, streamId: int32): (r: Result<Frame>)
    ensures r.Ok? <==> 0 < w.windowSizeIncrement < TWO31
    ensures r.Ok? ==> r.value.Consistent() && r.value.frameType == WINDOW_UPDATE && r.value.flags == 0
    ensures r.Ok? ==> r.value.streamId == streamId
  {
    if w.windowSizeIncrement == 0 || w.windowSizeIncrement >= TWO31 then Err(InvalidOperation)
    else Ok(Frame(4, WINDOW_UPDATE, 0, streamId, ToBE32(w.windowSizeIncrement)))
  }

  /** Every frame ToFrame produces parses back to the same increment. */
  lemma ParseToFrame(w: WindowUpdateFrame, streamId: int32)
    requires ToFrame(w, streamId).Ok?
    ensures Parse(ToFrame(w, streamId).value) == Ok(w)
  {
  }

  /** Within that range ToFrame and ToFrame as written agree. */
  lemma ToFrameAgrees(w: WindowUpdateFrame, streamId: int32)
    requires 0 < w.windowSizeIncrement < TWO31
    ensures ToFrame(w, streamId) == ToFrameAsWritten(w, streamId)
  {
  }
}
