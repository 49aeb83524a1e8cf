/**
 * An HTTP/2 frame (section 4.1 of RFC 7540): its header fields, the frame
 * type codes and the flag bits the frame classes test and set.
 */
module Http2Frame {
  import opened Common

  // Http2FrameType: the type octet is kept as read, so unknown types survive.
  const DATA: byte := 0
  const HEADERS: byte := 1
  const PRIORITY: byte := 2
  const RST_STREAM: byte := 3
  const SETTINGS: byte := 4
  const PING: byte := 6
  const GOAWAY: byte := 7
  const WINDOW_UPDATE: byte := 8

  // Flag bits.
  const END_STREAM: bv8 := 0x1
  const ACK: bv8 := 0x1
  const END_HEADERS: bv8 := 0x4
  const PADDED: bv8 := 0x8
  const PRIORITY_FLAG: bv8 := 0x20

  /** The value of a frame: length, type, flags, stream id and payload. */
  datatype Frame = Frame(length: uint32, frameType: byte, flags: bv8, streamId: int32, payload: Bytes)
  {
    /** The Length field agrees with the payload, as for every frame the reader returns. */
    predicate Consistent()
    {
      length == |payload|
    }

    predicate EndStream() { HasFlag(flags, END_STREAM) }
    predicate EndHeaders() { HasFlag(flags, END_HEADERS) }
    predicate Padded() { HasFlag(flags, PADDED) }
    predicate Priority() { HasFlag(flags, PRIORITY_FLAG) }
    predicate Ack() { HasFlag(flags, ACK) }
  }

  /** A flag getter: `(Flags & bit) != 0`. */
  predicate HasFlag(flags: bv8, bit: bv8)
  {
    flags & bit != 0
  }

  /** A flag setter: `value ? Flags | bit : Flags & ~bit`. */
  function WithFlag(flags: bv8, bit: bv8, value: bool): bv8
  {
    if value then flags | bit else flags & !bit
  }

  /** A single flag bit. */
  predicate SingleBit(bit: bv8)
  {
    bit == 0x1 || bit == 0x2 || bit == 0x4 || bit == 0x8 || bit == 0x10 || bit == 0x20 || bit == 0x40 || bit == 0x80
  }

  /** The five named flags are single bits; END_STREAM and ACK are the same bit. */
  lemma NamedFlags()
    ensures SingleBit(END_STREAM) && SingleBit(END_HEADERS) && SingleBit(PADDED) && SingleBit(PRIORITY_FLAG)
    ensures END_STREAM == ACK
    ensures END_HEADERS != END_STREAM && PADDED != END_STREAM && PRIORITY_FLAG != END_STREAM
    ensures PADDED != END_HEADERS && PRIORITY_FLAG != END_HEADERS && PRIORITY_FLAG != PADDED
  {
  }

  /** EndStream and Ack read the same bit, so they always agree. */
  lemma EndStreamIsAck(f: Frame)
    ensures f.EndStream() == f.Ack()
  {
  }

  /** A get after a set returns the value set. */
  lemma GetAfterSet(flags: bv8, bit: bv8, value: bool)
    requires SingleBit(bit)
    ensures HasFlag(WithFlag(flags, bit, value), bit) == value
  {
  }

  /** A set changes only its own bit. */
  lemma SetKeepsOtherBits(flags: bv8, bit: bv8, value: bool, other: bv8)
    requires SingleBit(bit) && SingleBit(other) && other != bit
    ensures HasFlag(WithFlag(flags, bit, value), other) == HasFlag(flags, other)
  {
  }

  /** Every bit outside `bit` is untouched, as a mask. */
  lemma SetMasksOtherBits(flags: bv8, bit: bv8, value: bool)
    ensures WithFlag(flags, bit, value) & !bit == flags & !bit
  {
  }

  /** Setting a flag twice is the same as setting it once. */
  lemma SetIdempotent(flags: bv8, bit: bv8, value: bool)
    ensures WithFlag(WithFlag(flags, bit, value), bit, value) == WithFlag(flags, bit, value)
  {
  }

  /**
   * The Http2Frame object: header fields with flag properties whose setters
   * update Flags in place.
   */
  class Http2Frame {
    var length: uint32
    var frameType: byte
    var flags: bv8
    var streamId: int32
    var payload: Bytes

    constructor ()
      ensures length == 0 && frameType == DATA && flags == 0 && streamId == 0 && payload == []
    {
      length := 0;
      frameType := DATA;
      flags := 0;
      streamId := 0;
      payload := [];
    }

    function Value(): Frame
      reads this
    {
      Frame(length, frameType, flags, streamId, payload)
    }

    function EndStream(): bool reads this { HasFlag(flags, END_STREAM) }
    function EndHeaders(): bool reads this { HasFlag(flags, END_HEADERS) }
    function Padded(): bool reads this { HasFlag(flags, PADDED) }
    function Priority(): bool reads this { HasFlag(flags, PRIORITY_FLAG) }
    function Ack(): bool reads this { HasFlag(flags, ACK) }

    method SetEndStream(value: bool)
      modifies this
      ensures flags == WithFlag(old(flags), END_STREAM, value)
      ensures length == old(length) && frameType == old(frameType) && streamId == old(streamId) && payload == old(payload)
    {
      flags := if value then flags | END_STREAM else flags & !END_STREAM;
    }

    method SetEndHeaders(value: bool)
      modifies this
      ensures flags == WithFlag(old(flags), END_HEADERS, value)
      ensures length == old(length) && frameType == old(frameType) && streamId == old(streamId) && payload == old(payload)
    {
      flags := if value then flags | END_HEADERS else flags & !END_HEADERS;
    }

    method SetPadded(value: bool)
      modifies this
      ensures flags == WithFlag(old(flags), PADDED, value)
      ensures length == old(length) && frameType == old(frameType) && streamId == old(streamId) && payload == old(payload)
    {
      flags := if value then flags | PADDED else flags & !PADDED;
    }

    method SetPriority(value: bool)
      modifies this
      ensures flags == WithFlag(old(flags), PRIORITY_FLAG, value)
      ensures length == old(length) && frameType == old(frameType) && streamId == old(streamId) && payload == old(payload)
    {
      flags := if value then flags | PRIORITY_FLAG else flags & !PRIORITY_FLAG;
    }

    method SetAck(value: bool)
      modifies this
      ensures flags == WithFlag(old(flags), ACK, value)
      ensures length == old(length) && frameType == old(frameType) && streamId == old(streamId) && payload == old(payload)
    {
      flags := if value then flags | ACK else flags & !ACK;
    }
  }
}
