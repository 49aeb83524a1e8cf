/**
 * The DATA frame (section 6.1 of RFC 7540): body octets with optional padding.
 */
module DataFrame {
  import opened Common
  import opened Http2Frame

  datatype DataFrame = DataFrame(data: Bytes, padLength: byte, endStream: bool)

  /**
   * DataFrame.Parse. With PADDED the first octet is the pad length, and it
   * must leave at least one data octet: a pad length equal to the payload
   * length minus one, which section 6.1 of RFC 7540 allows, is refused.
   */
  function Parse(f: Frame): (r: Result<DataFrame>)
    ensures r.Ok? ==> r.value.endStream == f.EndStream()
    ensures r == Err(ArgumentError) <==> f.frameType != DATA
  {
    if f.frameType != DATA then Err(ArgumentError)
    else if f.streamId == 0 then Err(InvalidOperation)
    else if f.Padded() then
      if |f.payload| < 1 then Err(InvalidOperation)
      else if f.payload[0] >= |f.payload| - 1 then Err(InvalidOperation)
      else Ok(DataFrame(f.payload[1..|f.payload| - f.payload[0]], f.payload[0], f.EndStream()))
    else Ok(DataFrame(f.payload, 0, f.EndStream()))
  }

  /** The payload ToFrame lays out: pad length, data, then that many zero octets. */
  function Layout(d: DataFrame): (r: Bytes)
    ensures d.padLength == 0 ==> r == d.data
    ensures d.padLength > 0 ==> |r| == 1 + |d.data| + d.padLength && r[0] == d.padLength
  {
    if d.padLength > 0 then [d.padLength] + d.data + Zeros(d.padLength) else d.data
  }

  /**
   * DataFrame.ToFrame. The data must be short enough for the int sum
   * 1 + Data.Length + PadLength that sizes the payload.
   */
  function ToFrame(d: DataFrame, streamId: int32): (r: Result<Frame>)
    requires |d.data| + 256 < TWO31
    ensures r.Ok? <==> streamId != 0
    ensures r.Ok? ==> r.value.Consistent() && r.value.frameType == DATA && r.value.streamId == streamId
    ensures r.Ok? ==> r.value.EndStream() == d.endStream && r.value.Padded() == (d.padLength > 0)
    ensures r.Ok? ==> !r.value.EndHeaders() && !r.value.Priority()
  {
    if streamId == 0 then Err(ArgumentError)
    else
      var payload := Layout(d);
      var flags: bv8 := (if d.endStream then END_STREAM else 0) | (if d.padLength > 0 then PADDED else 0);
      Ok(Frame(|payload|, DATA, flags, streamId, payload))
  }

  /**
   * What an accepted frame is made of: the pad-length octet when PADDED, the
   * data, then padLength octets of padding; a padded frame carries data.
   */
  lemma ParseSplitsPayload(f: Frame)
    requires Parse(f).Ok?
    ensures var d := Parse(f).value;
      f.frameType == DATA && f.streamId != 0 &&
      (d.padLength > 0 ==> f.Padded()) &&
      (f.Padded() ==> |d.data| > 0) &&
      exists padding: Bytes {:trigger |padding|} :: |padding| == d.padLength &&
        f.payload == (if f.Padded() then [d.padLength] else []) + d.data + padding
  {
    var d := Parse(f).value;
    if f.Padded() {
      var p := f.payload;
      var padding := p[|p| - p[0]..];
      assert p == [p[0]] + p[1..|p| - p[0]] + padding;
    } else {
      assert f.payload == [] + d.data + [];
    }
  }

  /** A frame from ToFrame parses back to the same value when it is unpadded or carries data. */
  lemma ParseToFrame(d: DataFrame, streamId: int32)
    requires |d.data| + 256 < TWO31 && streamId != 0
    requires d.padLength == 0 || |d.data| > 0
    ensures Parse(ToFrame(d, streamId).value) == Ok(d)
  {
    var f := ToFrame(d, streamId).value;
    if d.padLength > 0 {
      var p := Layout(d);
      assert p[1..|p| - d.padLength] == d.data;
    }
  }

  /** A padded DATA frame with no data, which ToFrame produces, is refused by Parse. */
  lemma PaddedEmptyRefused(d: DataFrame, streamId: int32)
    requires streamId != 0 && d.padLength > 0 && d.data == []
    ensures ToFrame(d, streamId).Ok? && Parse(ToFrame(d, streamId).value) == Err(InvalidOperation)
  {
  }

  /**
   * DataFrame.Parse with the padding check section 6.1 of RFC 7540 asks
   * for: the frame is refused only when the padding is at least as long as
   * the payload that follows the pad-length octet, so a padded frame may
   * carry no data.
   */
  function ParseFixed(f: Frame): (r: Result<DataFrame>)
    ensures r.Ok? ==> r.value.endStream == f.EndStream()
    ensures r == Err(ArgumentError) <==> f.frameType != DATA
  {
    if f.frameType != DATA then Err(ArgumentError)
    else if f.streamId == 0 then Err(InvalidOperation)
    else if f.Padded() then
      if |f.payload| < 1 then Err(InvalidOperation)
      else if f.payload[0] >= |f.payload| then Err(InvalidOperation)
      else Ok(DataFrame(f.payload[1..|f.payload| - f.payload[0]], f.payload[0], f.EndStream()))
    else Ok(DataFrame(f.payload, 0, f.EndStream()))
  }

  /** Every frame from ToFrame, padded data or not, parses back to the same value under the corrected check. */
  lemma ParseFixedToFrame(d: DataFrame, streamId: int32)
    requires |d.data| + 256 < TWO31 && streamId != 0
    ensures ParseFixed(ToFrame(d, streamId).value) == Ok(d)
  {
    if d.padLength > 0 {
      var p := Layout(d);
      assert p[1..|p| - d.padLength] == d.data;
    }
  }

  /**
   * The two checks differ on exactly one kind of frame: a padded DATA frame
   * whose padding fills everything after the pad-length octet, which Parse
   * refuses and the corrected check reads as empty data.
   */
  lemma ParseFixedDiffers(f: Frame)
    ensures Parse(f) != ParseFixed(f) <==>
      f.frameType == DATA && f.streamId != 0 && f.Padded() && |f.payload| >= 1 && f.payload[0] as int == |f.payload| - 1
    ensures Parse(f) != ParseFixed(f) ==>
      Parse(f) == Err(InvalidOperation) && ParseFixed(f).Ok? && ParseFixed(f).value.data == []
  {
  }
}
