/**
 * The PRIORITY frame (section 6.3 of RFC 7540): the E bit, a 31-bit stream
 * dependency and a weight.
 */
module PriorityFrame {
  import opened Common
  import opened Http2Frame

  datatype PriorityFrame = PriorityFrame(streamDependency: int32, weight: byte, exclusive: bool)

  /** The first payload word for a dependency, as the int `dependency | 0x80000000` written big-endian. */
  function DependencyWord(dependency: int32, exclusive: bool): (r: uint32)
    ensures exclusive ==> r == TWO31 + Low31(dependency)
    ensures r % TWO31 == Low31(dependency)
    ensures (r >= TWO31) == (exclusive || dependency < 0)
  {
    if exclusive then TWO31 + Low31(dependency) else dependency % TWO32
  }

  /** PriorityFrame.Parse: the top bit of the first word is Exclusive, the rest the dependency. */
  function Parse(f: Frame): (r: Result<PriorityFrame>)
    requires f.Consistent()
    ensures r.Ok? <==> f.frameType == PRIORITY && f.streamId != 0 && f.length == 5
    ensures r.Ok? ==> 0 <= r.value.streamDependency < TWO31
  {
    if f.frameType != PRIORITY then Err(ArgumentError)
    else if f.streamId == 0 then Err(InvalidOperation)
    else if f.length != 5 then Err(InvalidOperation)
    else
      var word := BE32(f.payload, 0);
      Ok(PriorityFrame(Low31(word), f.payload[4], word >= TWO31))
  }

  /** PriorityFrame.ToFrame: five octets, no flags, on a non-zero stream. */
  function ToFrame(p: PriorityFrame, streamId: int32): (r: Result<Frame>)
    ensures r.Ok? <==> streamId != 0
    ensures r.Ok? ==> r.value.Consistent() && r.value.length == 5 && r.value.flags == 0
    ensures r.Ok? ==> r.value.frameType == PRIORITY && r.value.streamId == streamId
  {
    if streamId == 0 then Err(ArgumentError)
    else Ok(Frame(5, PRIORITY, 0, streamId, ToBE32(DependencyWord(p.streamDependency, p.exclusive)) + [p.weight]))
  }

  /**
   * Parse undoes ToFrame up to two's complement: the dependency comes back
   * masked to 31 bits, and a negative one comes back exclusive.
   */
  lemma ParseToFrame(p: PriorityFrame, streamId: int32)
    requires streamId != 0
    ensures Parse(ToFrame(p, streamId).value) ==
      Ok(PriorityFrame(Low31(p.streamDependency), p.weight, p.exclusive || p.streamDependency < 0))
    ensures 0 <= p.streamDependency ==> Parse(ToFrame(p, streamId).value) == Ok(p)
  {
    var w := DependencyWord(p.streamDependency, p.exclusive);
    BE32At([], w, [p.weight]);
    assert [] + ToBE32(w) + [p.weight] == ToFrame(p, streamId).value.payload;
  }

  /** The word Parse splits is the word ToFrame rebuilds. */
  lemma WordOfParsed(word: uint32)
    ensures DependencyWord(Low31(word), word >= TWO31) == word
  {
    if word >= TWO31 {
      assert word - TWO31 < TWO31;
      assert Low31(word) == word - TWO31;
    }
  }

  /** A PRIORITY frame that parses is rebuilt by ToFrame, up to its flags. */
  lemma ToFrameParse(f: Frame)
    requires f.Consistent() && Parse(f).Ok?
    ensures ToFrame(Parse(f).value, f.streamId) == Ok(f.(flags := 0))
  {
    WordOfParsed(BE32(f.payload, 0));
    ToBE32Of(f.payload, 0);
    assert f.payload == f.payload[0..4] + [f.payload[4]];
  }
}
