/**
 * The HEADERS frame (section 6.2 of RFC 7540): optional pad length, optional
 * priority fields, an HPACK header block, then padding. Parsing decodes the
 * block with the connection's HPACK decoder and serialising encodes the
 * headers with its encoder, so both change a dynamic table.
 */
module HeadersFrame {
  import opened Common
  import opened Http2Frame
  import opened HpackStaticTable
  import D = HpackDynamicTable
  import Dec = HpackDecoder
  import Enc = HpackEncoder
  import RT = HpackRoundTrip
  import PriorityFrame

  datatype HeadersFrame = HeadersFrame(
    headers: seq<HeaderField>,
    endStream: bool,
    endHeaders: bool,
    padLength: byte,
    hasPriority: bool,
    streamDependency: int32,
    weight: byte,
    exclusive: bool)

  /** The fields Parse reads around the header block, and where the block lies in the payload. */
  datatype Split = Split(fields: HeadersFrame, blockStart: nat, blockEnd: nat)

  /** The pad length and the offset after it: with PADDED it is the first octet, which must exist. */
  function PadField(f: Frame): (r: Result<(byte, nat)>)
    ensures r.Ok? ==> r.value.1 <= |f.payload|
  {
    if !f.Padded() then Ok((0, 0))
    else if |f.payload| < 1 then Err(InvalidOperation)
    else Ok((f.payload[0], 1))
  }

  /**
   * The priority word, the weight and the offset after them: with PRIORITY
   * five octets must follow the offset.
   */
  function PriorityField(f: Frame, offset: nat): (r: Result<(uint32, byte, nat)>)
    requires offset <= |f.payload|
    ensures r.Ok? ==> r.value.2 <= |f.payload|
  {
    if !f.Priority() then Ok((0, 0, offset))
    else if |f.payload| - offset < 5 then Err(InvalidOperation)
    else Ok((BE32(f.payload, offset), f.payload[offset + 4], offset + 5))
  }

  /**
   * The checks and field reads of HeadersFrame.Parse before the block is
   * decoded: padding needs one octet, priority five more, and the padding
   * may not reach into them.
   */
  function SplitPayload(f: Frame): (r: Result<Split>)
    ensures r.Ok? ==> r.value.blockStart <= r.value.blockEnd <= |f.payload| && r.value.fields.headers == []
    ensures r.Ok? ==> r.value.fields.endStream == f.EndStream() && r.value.fields.endHeaders == f.EndHeaders()
    ensures r.Ok? ==> r.value.fields.hasPriority == f.Priority() && 0 <= r.value.fields.streamDependency < TWO31
  {
    if f.frameType != HEADERS then Err(ArgumentError)
    else if f.streamId == 0 then Err(InvalidOperation)
    else
      match PadField(f)
      case Err(e) => Err(e)
      case Ok((pad, offset)) =>
        match PriorityField(f, offset)
        case Err(e) => Err(e)
        case Ok((word, weight, start)) =>
          if |f.payload| - start - pad < 0 then Err(InvalidOperation)
          else
            var fields := HeadersFrame([], f.EndStream(), f.EndHeaders(), pad, f.Priority(), Low31(word), weight, word >= TWO31);
            Ok(Split(fields, start, |f.payload| - pad))
  }

  /**
   * HeadersFrame.Parse: the decoded frame and the decoder's table afterwards.
   * An empty block is not handed to the decoder.
   */
  function ParseSpec(huffman: Bytes -> HString, t: Dec.TableState, f: Frame): (r: (Result<HeadersFrame>, Dec.TableState))
    requires |f.payload| < TWO31
    ensures SplitPayload(f).Err? ==> r == (Err(SplitPayload(f).failure), t)
    ensures r.0.Ok? ==> SplitPayload(f).Ok? && r.0.value.(headers := []) == SplitPayload(f).value.fields
  {
    match SplitPayload(f)
    case Err(e) => (Err(e), t)
    case Ok(s) =>
      if s.blockStart == s.blockEnd then (Ok(s.fields), t)
      else
        var (res, after) := Dec.DecodeBlock(huffman, t, f.payload[s.blockStart..s.blockEnd]);
        match res
        case Err(e) => (Err(e), after)
        case Ok(hs) => (Ok(s.fields.(headers := hs)), after)
  }

  method Parse(f: Frame, decoder: Dec.Decoder) returns (r: Result<HeadersFrame>)
    requires decoder.Valid() && |f.payload| < TWO31
    modifies decoder.table
    ensures decoder.Valid()
    ensures (r, decoder.State()) == ParseSpec(decoder.huffman, old(decoder.State()), f)
  {
    var split := SplitPayload(f);
    if split.Err? {
      return Err(split.failure);
    }
    var s := split.value;
    if s.blockStart == s.blockEnd {
      return Ok(s.fields);
    }
    var decoded := decoder.Decode(f.payload[s.blockStart..s.blockEnd]);
    if decoded.Err? {
      return Err(decoded.failure);
    }
    r := Ok(s.fields.(headers := decoded.value));
  }

  /** The pad-length octet, when there is padding. */
  function PadPart(h: HeadersFrame): Bytes
  {
    if h.padLength > 0 then [h.padLength] else []
  }

  /** The five priority octets, when HasPriority is set. */
  function PriorityPart(h: HeadersFrame): Bytes
  {
    if h.hasPriority then ToBE32(PriorityFrame.DependencyWord(h.streamDependency, h.exclusive)) + [h.weight] else []
  }

  /** The payload ToFrame lays out around a header block. */
  function Layout(h: HeadersFrame, block: Bytes): Bytes
  {
    PadPart(h) + PriorityPart(h) + block + Zeros(h.padLength)
  }

  /** The frame ToFrame builds around a header block; Length is `(uint)payload.Length`. */
  function Assemble(h: HeadersFrame, streamId: int32, block: Bytes): (r: Frame)
    ensures r.frameType == HEADERS && r.streamId == streamId && r.payload == Layout(h, block)
    ensures r.EndStream() == h.endStream && r.EndHeaders() == h.endHeaders
    ensures r.Padded() == (h.padLength > 0) && r.Priority() == h.hasPriority
  {
    var payload := Layout(h, block);
    var flags: bv8 := (if h.endStream then END_STREAM else 0) | (if h.endHeaders then END_HEADERS else 0) |
                      (if h.padLength > 0 then PADDED else 0) | (if h.hasPriority then PRIORITY_FLAG else 0);
    Frame(|payload| % TWO32, HEADERS, flags, streamId, payload)
  }

  /**
   * HeadersFrame.ToFrame: refuses stream 0 before touching the encoder;
   * otherwise encodes the headers, which updates the encoder's table.
   */
  method ToFrame(h: HeadersFrame, streamId: int32, encoder: Enc.Encoder) returns (r: Result<Frame>)
    requires encoder.Valid()
    modifies encoder.table
    ensures encoder.Valid() && encoder.table.maxSize == old(encoder.table.maxSize)
    ensures streamId == 0 ==> r == Err(ArgumentError) && encoder.table.entries == old(encoder.table.entries)
    ensures streamId != 0 ==>
      var (block, entries) := Enc.EncodeBlock(old(encoder.table.entries), encoder.table.maxSize, h.headers);
      r == Ok(Assemble(h, streamId, block)) && encoder.table.entries == entries
  {
    if streamId == 0 {
      return Err(ArgumentError);
    }
    var block := encoder.Encode(h.headers);
    r := Ok(Assemble(h, streamId, block));
  }

  /** The fields other than the headers that survive ToFrame and Parse: without priority they read as zero. */
  function Surviving(h: HeadersFrame): HeadersFrame
  {
    if h.hasPriority then h.(headers := []) else h.(headers := [], streamDependency := 0, weight := 0, exclusive := false)
  }

  /** Parse finds the fields and the exact block that ToFrame laid out. */
  lemma SplitAssemble(h: HeadersFrame, streamId: int32, block: Bytes)
    requires streamId != 0 && |block| + 261 < TWO31
    requires h.hasPriority ==> 0 <= h.streamDependency
    ensures var f := Assemble(h, streamId, block);
      f.Consistent() &&
      SplitPayload(f).Ok? && SplitPayload(f).value.fields == Surviving(h) &&
      f.payload[SplitPayload(f).value.blockStart..SplitPayload(f).value.blockEnd] == block
  {
    var f := Assemble(h, streamId, block);
    var start: nat := |PadPart(h)| + |PriorityPart(h)|;
    PadFieldOfAssemble(h, streamId, block);
    PriorityFieldOfAssemble(h, streamId, block);
    assert SplitPayload(f) == Ok(Split(Surviving(h), start, |f.payload| - h.padLength));
    MiddleSlice(PadPart(h) + PriorityPart(h), block, Zeros(h.padLength));
  }

  lemma PadFieldOfAssemble(h: HeadersFrame, streamId: int32, block: Bytes)
    ensures PadField(Assemble(h, streamId, block)) == Ok((h.padLength, |PadPart(h)|))
  {
    var p := Assemble(h, streamId, block).payload;
    if h.padLength > 0 {
      assert p[0] == h.padLength;
    }
  }

  lemma PriorityFieldOfAssemble(h: HeadersFrame, streamId: int32, block: Bytes)
    requires h.hasPriority ==> 0 <= h.streamDependency
    ensures var w := PriorityFrame.DependencyWord(h.streamDependency, h.exclusive);
      PriorityField(Assemble(h, streamId, block), |PadPart(h)|) ==
        Ok((if h.hasPriority then w else 0, if h.hasPriority then h.weight else 0, |PadPart(h)| + |PriorityPart(h)|))
    ensures h.hasPriority ==> var w := PriorityFrame.DependencyWord(h.streamDependency, h.exclusive);
      Low31(w) == h.streamDependency && (w >= TWO31) == h.exclusive
  {
    var f := Assemble(h, streamId, block);
    if h.hasPriority {
      var w := PriorityFrame.DependencyWord(h.streamDependency, h.exclusive);
      PriorityBytes(PadPart(h), w, h.weight, block + Zeros(h.padLength));
      assert f.payload == PadPart(h) + (ToBE32(w) + [h.weight]) + (block + Zeros(h.padLength));
      Low31Id(h.streamDependency);
    }
  }

  /** Where the priority fields sit in a payload. */
  lemma PriorityBytes(a: Bytes, w: uint32, weight: byte, rest: Bytes)
    ensures var p := a + (ToBE32(w) + [weight]) + rest;
      |p| >= |a| + 5 && BE32(p, |a|) == w && p[|a| + 4] == weight
  {
    var p := a + (ToBE32(w) + [weight]) + rest;
    BE32At(a, w, [weight] + rest);
    assert p == a + ToBE32(w) + ([weight] + rest);
  }

  /**
   * A frame that ToFrame builds with the encoder parses, with a decoder whose
   * table mirrors the encoder's, to the same fields and the same headers
   * (names up to ASCII case), and the two tables still mirror each other.
   */
  lemma ParseToFrame(huffman: Bytes -> HString, dec: seq<HeaderField>, enc: seq<HeaderField>, maxSize: int32,
                     h: HeadersFrame, streamId: int32)
    requires D.Fits(enc, maxSize) && RT.Mirrors(dec, enc)
    requires streamId != 0 && (h.hasPriority ==> 0 <= h.streamDependency)
    requires |Enc.EncodeBlock(enc, maxSize, h.headers).0| + 261 < TWO31
    ensures var (block, encAfter) := Enc.EncodeBlock(enc, maxSize, h.headers);
      var (r, decAfter) := ParseSpec(huffman, Dec.TableState(dec, maxSize), Assemble(h, streamId, block));
      r.Ok? && r.value.(headers := []) == Surviving(h) && RT.SameHeaders(r.value.headers, h.headers) &&
      decAfter.maxSize == maxSize && RT.Mirrors(decAfter.entries, encAfter)
  {
    var (block, encAfter) := Enc.EncodeBlock(enc, maxSize, h.headers);
    var f := Assemble(h, streamId, block);
    SplitAssemble(h, streamId, block);
    RT.BlockRoundTrip(huffman, dec, enc, maxSize, h.headers);
    var s := SplitPayload(f).value;
    assert f.payload[s.blockStart..s.blockEnd] == block;
  }
}
