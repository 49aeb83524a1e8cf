# WRM network front end in Dafny

This project models the protocol core of WRM, a multi-protocol network front end written in C#. A connection goes through a pipeline of steps. The steps sniff which protocol the client speaks, hand the next steps a stream that replays the sniffed bytes before the rest of the connection, and then run either the HTTP/1.1 engine or the HTTP/2 engine. Optional steps, such as the firewall, sit in between. The repository holds several parallel revisions of the same components (the trees `WRM.Core/…`, `WRM.HTTP.*/…` and `WRM/WRM.Core/…`). Each revision named in the table below has its own module.

What is modelled, by module:

- **Byte and text helpers.**
  - `Common` holds bytes, `Result`, big-endian words, 32-bit wrap-around and ASCII case folding.
  - `Strings` and `Decimal` hold the .NET string and number functions the source relies on: `Split`, `Trim`, `IndexOf`, hexadecimal and decimal parsing and printing.
  - `Channel` is a duplex .NET `Stream`: the bytes the peer has sent, a read position, and the bytes written. A read returns a non-empty prefix of what remains, and 0 only at the end.
- **HPACK (RFC 7541).**
  - `HpackInteger`: the prefix-integer codec of section 5.1, as the loops of the source, proved against recursive specifications.
  - `HpackStaticTable`: the 61-entry table of Appendix A.
  - `HpackDynamicTable`: the dynamic table. It is a class whose `Add`, `SetMaxSize`, `Evict` and `Clear` keep the size invariant of section 4.4.
  - `HpackEncoder` and `HpackDecoder`.
  - `HpackRoundTrip`: the encoder and the decoder agree.
- **HTTP/2 (RFC 7540).**
  - `Http2Frame`: the frame and its flag accessors.
  - `Http2FrameIO`: the 9-byte header reader and writer of section 4.1.
  - One module for each frame type of sections 6.1 to 6.9, each with parse, serialise and a round-trip lemma.
  - `Http2Settings` and `Http2Connection`: the stream table.
  - `Http2PrefaceStep`: the connection preface of section 3.5.
  - `Http2FrameDispatchStep`: the stream state machine and the handling of SETTINGS, PING and RST_STREAM.
  - `Http2RequestStep`: the response scan over ready streams.
- **HTTP/1.1 (RFC 7230).**
  - `LineReader`: the line reader.
  - `HttpRequestBody` (specification functions) and `HttpRequestBodyStream` (the stream class): body framing by Content-Length and by the chunked coding of section 4.1.
  - `Http1Syntax` and `Http1Head`: request-line and header parsing.
  - `Http1ParsingStep`: the keep-alive loop of the `WRM.HTTP.HTTP1` step, with its error responses and response writer.
  - `CoreHttp1ParsingStep`: the `WRM.Core` step.
  - `ParseHttp1Step` and `Http1Context`: the `WRM/WRM.Core` step with its context (response header synthesis, reason phrases, tunnels).
  - `RequestHeaders` and `HttpMessage`: the header collection and the message records.
- **Sniffing and replay.**
  - `PeekStreams`: the two buffered peek streams.
  - `ProtocolDetection`, `HttpProtocolDetection` and `WrmProtocolDetection`: the three detection steps.
  - `NetworkContext`: the context that the steps share.
  - `FrontEnd`: a detection step followed by the engine it selects, as the hosts register them; the engine reads what the peer sent from its first octet.
- **Pipeline and firewall.**
  - `Pipeline`: the pipeline builder, the plugin host and the HTTP pipeline step.
  - `Firewall`: rule evaluation and the firewall step.

An object that the source updates in place is a class whose methods state its new state. Code that only computes is written as functions. Each operation is tied to a partner by lemmas: a round trip, a preserved invariant, or a reference definition.

## Model

| member | source | states |
|---|---|---|
| WindowUpdateFrame.Parse | WRM.Core/Plugins/Http2/Frames/WindowUpdateFrame.cs:15-33 | an accepted frame is four octets long and its increment is the big-endian payload word with the reserved top bit cleared, hence between 1 and 2^31-1 |
| WindowUpdateFrame.ParseAccepts | WRM.Core/Plugins/Http2/Frames/WindowUpdateFrame.cs:17-27 | Parse succeeds exactly for a WINDOW_UPDATE frame of Length 4 whose low 31 payload bits are not all zero |
| WindowUpdateFrame.ToFrameAsWritten | WRM.Core/Plugins/Http2/Frames/WindowUpdateFrame.cs:38-54 | as written: fails exactly on a zero increment; otherwise a consistent four-octet WINDOW_UPDATE frame with no flags carrying the increment with its top bit cleared |
| WindowUpdateFrame.AsWrittenTopBitOnly | WRM.Core/Plugins/Http2/Frames/WindowUpdateFrame.cs:40-44 | the increment 0x80000000 passes the zero check, is written as 0, and the frame produced is then refused by Parse |
| WindowUpdateFrame.ToFrame | WRM.Core/Plugins/Http2/Frames/WindowUpdateFrame.cs:38-54 | corrected: succeeds exactly for increments 1..2^31-1 and yields a consistent WINDOW_UPDATE frame with no flags on the given stream |
| WindowUpdateFrame.ParseToFrame | WRM.Core/Plugins/Http2/Frames/WindowUpdateFrame.cs:15-54 | every frame the corrected ToFrame builds parses back to the same increment |
| WindowUpdateFrame.ToFrameAgrees | WRM.Core/Plugins/Http2/Frames/WindowUpdateFrame.cs:38-54 | on increments below 2^31 the corrected and the as-written ToFrame give the same frame |
| PingFrame.Parse | WRM.Core/Plugins/Http2/Frames/PingFrame.cs:14-30 | an accepted frame's opaque data is its payload and its ACK flag is the frame's |
| PingFrame.ParseAccepts | WRM.Core/Plugins/Http2/Frames/PingFrame.cs:16-23 | Parse succeeds exactly for a PING frame on stream 0 with Length 8; a wrong type is an argument error, the other refusals invalid operations |
| PingFrame.ToFrame | WRM.Core/Plugins/Http2/Frames/PingFrame.cs:35-48 | succeeds exactly when the opaque data is eight octets; the frame is a consistent PING on stream 0 with the ACK flag and the data as payload |
| PingFrame.ParseToFrame | WRM.Core/Plugins/Http2/Frames/PingFrame.cs:14-48 | every PING built from eight octets parses back to the same data and flag |
| PingFrame.ToFrameParse | WRM.Core/Plugins/Http2/Frames/PingFrame.cs:14-48 | a consistent frame that parses is rebuilt by ToFrame, with every flag other than ACK cleared |
| RstStreamFrame.Parse | WRM.HTTP.HTTP2/Frames/RstStreamFrame.cs:23-40 | succeeds exactly for an RST_STREAM frame on a non-zero stream with Length 4; the error code is the big-endian payload word |
| RstStreamFrame.ToFrame | WRM.HTTP.HTTP2/Frames/RstStreamFrame.cs:45-61 | succeeds exactly on a non-zero stream id; the frame is a consistent four-octet RST_STREAM with no flags on that stream |
| RstStreamFrame.ParseToFrame | WRM.HTTP.HTTP2/Frames/RstStreamFrame.cs:23-61 | every 32-bit error code survives ToFrame then Parse |
| RstStreamFrame.ToFrameParse | WRM.HTTP.HTTP2/Frames/RstStreamFrame.cs:23-61 | a consistent RST_STREAM frame that parses is rebuilt by ToFrame, up to its flags |
| GoAwayFrame.Parse | WRM.Core/Plugins/Http2/Frames/GoAwayFrame.cs:34-63 | succeeds exactly for a GOAWAY frame on stream 0 of Length at least 8; the last stream id has its reserved bit cleared and the debug data is the Length - 8 octets after the two words |
| GoAwayFrame.ToFrame | WRM.Core/Plugins/Http2/Frames/GoAwayFrame.cs:68-88 | a consistent GOAWAY frame on stream 0 with no flags whose Length is 8 plus the debug data |
| GoAwayFrame.ParseToFrame | WRM.Core/Plugins/Http2/Frames/GoAwayFrame.cs:34-88 | Parse of ToFrame gives back the frame with the last stream id reduced to its low 31 bits, and the very same frame when that id is not negative |
| GoAwayFrame.ToFrameParse | WRM.Core/Plugins/Http2/Frames/GoAwayFrame.cs:34-88 | a GOAWAY frame that parses, with the reserved bit clear, is rebuilt by ToFrame up to its flags |
| GoAwayFrame.DebugMessage | WRM.Core/Plugins/Http2/Frames/GoAwayFrame.cs:90-96 | empty debug data gives the empty string, other data its UTF-8 decoding (the decoder is a parameter) |
| PriorityFrame.DependencyWord | WRM.Core/Plugins/Http2/Frames/PriorityFrame.cs:52-56 | the first payload word carries the dependency's low 31 bits, and its top bit is set exactly when Exclusive is set or the dependency is negative |
| PriorityFrame.Parse | WRM.Core/Plugins/Http2/Frames/PriorityFrame.cs:17-40 | succeeds exactly for a PRIORITY frame on a non-zero stream with Length 5; the dependency is the low 31 bits of the first word |
| PriorityFrame.ToFrame | WRM.Core/Plugins/Http2/Frames/PriorityFrame.cs:45-67 | succeeds exactly on a non-zero stream id; the frame is a consistent five-octet PRIORITY frame with no flags on that stream |
| PriorityFrame.ParseToFrame | WRM.Core/Plugins/Http2/Frames/PriorityFrame.cs:17-67 | Parse of ToFrame gives the low 31 bits of the dependency and Exclusive or-ed with its sign, hence the same value for a non-negative dependency |
| PriorityFrame.WordOfParsed | WRM.Core/Plugins/Http2/Frames/PriorityFrame.cs:28-56 | the word Parse splits into dependency and Exclusive is the word ToFrame writes back |
| PriorityFrame.ToFrameParse | WRM.Core/Plugins/Http2/Frames/PriorityFrame.cs:17-67 | a PRIORITY frame that parses is rebuilt by ToFrame up to its flags |
| DataFrame.Parse | WRM.Core/Plugins/Http2/Frames/DataFrame.cs:18-57 | the argument error happens exactly for a frame that is not DATA; an accepted frame keeps its END_STREAM flag |
| DataFrame.ParseSplitsPayload | WRM.Core/Plugins/Http2/Frames/DataFrame.cs:18-57 | an accepted frame is DATA on a non-zero stream, and its payload is the pad length octet (when PADDED), the data, then exactly pad-length octets; a padded frame that is accepted has data |
| DataFrame.Layout | WRM.Core/Plugins/Http2/Frames/DataFrame.cs:67-89 | without padding the payload is the data; with padding it is the pad length, the data and that many octets |
| DataFrame.ToFrame | WRM.Core/Plugins/Http2/Frames/DataFrame.cs:62-99 | succeeds exactly on a non-zero stream id; END_STREAM is the value's flag and PADDED is set exactly when the pad length is positive |
| DataFrame.ParseToFrame | WRM.Core/Plugins/Http2/Frames/DataFrame.cs:18-99 | a frame ToFrame builds parses back to the same value when it is unpadded or carries data |
| DataFrame.PaddedEmptyRefused | WRM.Core/Plugins/Http2/Frames/DataFrame.cs:43-44 | a padded frame with no data, which ToFrame builds, is refused by Parse, because the padding check is `>=` |
| DataFrame.ParseFixed | WRM.Core/Plugins/Http2/Frames/DataFrame.cs:18-57 | corrected: the argument error happens exactly for a frame that is not DATA; an accepted frame keeps its END_STREAM flag; only padding that reaches past the payload is refused |
| DataFrame.ParseFixedToFrame | WRM.Core/Plugins/Http2/Frames/DataFrame.cs:18-99 | corrected: every frame ToFrame builds, padded data included, parses back to the same value |
| DataFrame.ParseFixedDiffers | WRM.Core/Plugins/Http2/Frames/DataFrame.cs:43-44 | the check as written and the corrected one disagree exactly on a padded DATA frame whose padding fills the rest of the payload, which the first refuses and the second reads as empty data |
| Http2Frame.NamedFlags | WRM.Core/Plugins/Http2/Frames/Http2Frame.cs:16-59 | END_STREAM, END_HEADERS, PADDED and PRIORITY are four distinct single bits, and ACK is the END_STREAM bit |
| Http2Frame.EndStreamIsAck | WRM.Core/Plugins/Http2/Frames/Http2Frame.cs:19-23 | the EndStream and Ack getters of any frame agree |
| Http2Frame.GetAfterSet | WRM.Core/Plugins/Http2/Frames/Http2Frame.cs:19-59 | after a flag setter the matching getter returns the value set |
| Http2Frame.SetKeepsOtherBits | WRM.Core/Plugins/Http2/Frames/Http2Frame.cs:19-59 | a flag setter leaves every other named flag as it was |
| Http2Frame.SetMasksOtherBits | WRM.Core/Plugins/Http2/Frames/Http2Frame.cs:19-59 | a flag setter changes no bit outside its own |
| Http2Frame.SetIdempotent | WRM.Core/Plugins/Http2/Frames/Http2Frame.cs:19-59 | setting a flag twice to one value is setting it once |
| Http2Frame.Http2Frame.constructor | WRM.Core/Plugins/Http2/Frames/Http2Frame.cs:6-12 | a new frame has Length 0, type DATA, no flags, stream 0 and an empty payload |
| Http2Frame.Http2Frame.SetEndStream | WRM.Core/Plugins/Http2/Frames/Http2Frame.cs:19-23 | sets or clears bit 0x1 of Flags and changes no other field |
| Http2Frame.Http2Frame.SetEndHeaders | WRM.Core/Plugins/Http2/Frames/Http2Frame.cs:28-32 | sets or clears bit 0x4 of Flags and changes no other field |
| Http2Frame.Http2Frame.SetPadded | WRM.Core/Plugins/Http2/Frames/Http2Frame.cs:37-41 | sets or clears bit 0x8 of Flags and changes no other field |
| Http2Frame.Http2Frame.SetPriority | WRM.Core/Plugins/Http2/Frames/Http2Frame.cs:46-50 | sets or clears bit 0x20 of Flags and changes no other field |
| Http2Frame.Http2Frame.SetAck | WRM.Core/Plugins/Http2/Frames/Http2Frame.cs:55-59 | sets or clears bit 0x1 of Flags and changes no other field |
| Http2FrameIO.ClientPrefaceText | WRM.HTTP.HTTP2/Frames/Http2FrameWriter.cs:62-68 | the preface is the 24 octets of the ASCII text `PRI * HTTP/2.0\r\n\r\nSM\r\n\r\n` |
| Http2FrameIO.HeaderOctets | WRM.HTTP.HTTP2/Frames/Http2FrameWriter.cs:30-43 | the frame header is nine octets |
| Http2FrameIO.HeaderFields | WRM.HTTP.HTTP2/Frames/Http2FrameReader.cs:43-53 | the nine header octets written decode to the frame's Length, type, flags and the stream id's low 31 bits |
| Http2FrameIO.ReadSpecFrame | WRM.HTTP.HTTP2/Frames/Http2FrameReader.cs:18-74 | when nine header octets and the whole payload are there, the reader returns the frame they encode and consumes 9 + Length octets |
| Http2FrameIO.ReadFrameShape | WRM.HTTP.HTTP2/Frames/Http2FrameReader.cs:44-73 | every frame read has Length equal to its payload size, Length below 2^24 and a stream id in [0, 2^31) |
| Http2FrameIO.ReadConsumes | WRM.HTTP.HTTP2/Frames/Http2FrameReader.cs:18-32 | reading never consumes more than is there, and consumes nothing exactly at the end of the stream |
| Http2FrameIO.ReadWritten | WRM.HTTP.HTTP2/Frames/Http2FrameReader.cs:18-74 | reading what WriteFrameAsync sent, whatever follows, gives back the frame with the stream id's reserved bit cleared and consumes exactly what was written |
| Http2FrameIO.SentAppend | WRM.HTTP.HTTP2/Frames/Http2FrameWriter.cs:18-55 | the octets sent for two runs of frames are the octets of the first run followed by those of the second |
| Http2FrameIO.SentOne | WRM.HTTP.HTTP2/Frames/Http2FrameWriter.cs:18-55 | one frame sends its own octets, or nothing when the writer refuses it |
| Http2FrameIO.FrameReader.ReadExact | WRM.HTTP.HTTP2/Frames/Http2FrameReader.cs:79-97 | reads min(count, what is left) octets into the buffer at the offset, advances the stream by that much and leaves the buffer before the offset alone |
| Http2FrameIO.FrameReader.ReadFrame | WRM.HTTP.HTTP2/Frames/Http2FrameReader.cs:18-74 | the result and the octets consumed are those ReadSpec gives for what was left: a frame, nothing at the end of the stream, or an I/O error for a short header or payload |
| Http2FrameIO.FrameWriter.WriteFrame | WRM.HTTP.HTTP2/Frames/Http2FrameWriter.cs:18-55 | fails when Length exceeds 2^24-1 or differs from the payload size, writing nothing; otherwise appends the nine header octets and the payload |
| Http2FrameIO.FrameWriter.WriteClientPreface | WRM.HTTP.HTTP2/Frames/Http2FrameWriter.cs:60-72 | appends exactly the 24 preface octets |
| Http2Settings.Settings.constructor | WRM.HTTP.HTTP2/Connection/Http2Settings.cs:5-10 | a new object holds 4096, push enabled, 100 streams, 65535, 16384 and 2^32-1 |
| SettingsFrame.PutLookup | WRM.Core/Plugins/Http2/Frames/SettingsFrame.cs:20-52 | after `Parameters[id] = value` the key maps to the new value and every other key keeps its value |
| SettingsFrame.PutDistinct | WRM.Core/Plugins/Http2/Frames/SettingsFrame.cs:20-52 | an indexer store keeps the keys distinct, adds the key to them, and puts a new key last in enumeration order |
| SettingsFrame.LookupNone | WRM.Core/Plugins/Http2/Frames/SettingsFrame.cs:20 | a key has no value exactly when it is absent from the dictionary |
| SettingsFrame.ParametersBound | WRM.Core/Plugins/Http2/Frames/SettingsFrame.cs:20 | a dictionary keyed by ushort holds at most 65536 entries |
| SettingsFrame.Unit | WRM.Core/Plugins/Http2/Frames/SettingsFrame.cs:49-77 | one parameter is a six-octet unit |
| SettingsFrame.Encode | WRM.Core/Plugins/Http2/Frames/SettingsFrame.cs:71-79 | the payload is six octets per parameter |
| SettingsFrame.ParamsOfDistinct | WRM.Core/Plugins/Http2/Frames/SettingsFrame.cs:47-53 | the dictionary the parse loop builds has distinct keys |
| SettingsFrame.ParamsLastWins | WRM.Core/Plugins/Http2/Frames/SettingsFrame.cs:47-53 | for an identifier repeated in the payload the value of its last unit wins |
| SettingsFrame.Parse | WRM.Core/Plugins/Http2/Frames/SettingsFrame.cs:25-56 | returns what ParseSpec gives: argument error for another type, invalid operation for a non-zero stream, a non-empty ACK or a Length that is not a multiple of 6, else the dictionary of the units |
| SettingsFrame.ReadParameters | WRM.Core/Plugins/Http2/Frames/SettingsFrame.cs:47-53 | the loop stores each six-octet unit with the indexer, giving ParamsOf of the payload |
| SettingsFrame.ToFrame | WRM.Core/Plugins/Http2/Frames/SettingsFrame.cs:61-90 | returns ToFrameSpec: a SETTINGS frame on stream 0 whose flags are ACK exactly when asked, empty for an ACK and otherwise one unit per parameter in enumeration order |
| SettingsFrame.EncodeUnits | WRM.Core/Plugins/Http2/Frames/SettingsFrame.cs:71-79 | an encoding is a whole number of six-octet units |
| SettingsFrame.ParamsOfEncode | WRM.Core/Plugins/Http2/Frames/SettingsFrame.cs:25-90 | reading the units of an encoding back rebuilds the same dictionary in the same order |
| SettingsFrame.ParseToFrame | WRM.Core/Plugins/Http2/Frames/SettingsFrame.cs:25-90 | ToFrame gives a consistent frame, and Parse of it gives back the same parameters, or none for an ACK |
| SettingsFrame.ParseAccepts | WRM.Core/Plugins/Http2/Frames/SettingsFrame.cs:27-45 | Parse succeeds exactly for SETTINGS on stream 0 that is empty when ACK and a multiple of 6 otherwise; it holds at most Length/6 parameters, none for an ACK |
| SettingsFrame.ApplyTo | WRM.Core/Plugins/Http2/Frames/SettingsFrame.cs:95-134 | the new settings and the outcome are ApplySpec of the entries in enumeration order over the old settings |
| SettingsFrame.ApplyErrSticky | WRM.Core/Plugins/Http2/Frames/SettingsFrame.cs:95-134 | once an entry has thrown, the entries after it are not applied |
| SettingsFrame.ApplyFailsIff | WRM.Core/Plugins/Http2/Frames/SettingsFrame.cs:105-125 | ApplyTo throws exactly when some entry is out of its range: ENABLE_PUSH above 1, INITIAL_WINDOW_SIZE above 2^31-1, MAX_FRAME_SIZE outside 16384..16777215 |
| SettingsFrame.ApplyStopsAtFirstInvalid | WRM.Core/Plugins/Http2/Frames/SettingsFrame.cs:95-134 | when entry i is the first out of range, the entries before it are applied, the rest are not, and the outcome is an invalid-operation error |
| SettingsFrame.ApplyLastWins | WRM.Core/Plugins/Http2/Frames/SettingsFrame.cs:97-130 | when every entry is in range, each known property takes the value of the last entry with its identifier, or keeps its own when there is none |
| SettingsFrame.ApplyAbsentUnchanged | WRM.Core/Plugins/Http2/Frames/SettingsFrame.cs:97-130 | a property whose identifier does not occur keeps its value, even when ApplyTo throws |
| SettingsFrame.ApplyUnknownIgnored | WRM.Core/Plugins/Http2/Frames/SettingsFrame.cs:131 | an entry with an unknown identifier changes nothing |
| HpackInteger.MaxPrefix | WRM.HTTP.HTTP2/HPACK/HpackInteger.cs:10-45 | `(1 << N) - 1` is at least 1 and one less than 2^N |
| HpackInteger.EncodeSpec | WRM.HTTP.HTTP2/HPACK/HpackInteger.cs:5-35 | Encode throws an argument error exactly when the prefix width is outside 1..8 |
| HpackInteger.Groups | WRM.HTTP.HTTP2/HPACK/HpackInteger.cs:59-75 | a run of continuation octets ends after the start and within the buffer, or fails with the incomplete-encoding error |
| HpackInteger.DecodeSpec | WRM.HTTP.HTTP2/HPACK/HpackInteger.cs:37-76 | a decoded integer consumed between 1 and all of the buffer's octets; an empty buffer or a prefix width outside 1..8 is an argument error |
| HpackInteger.Encode | WRM.HTTP.HTTP2/HPACK/HpackInteger.cs:5-35 | the octets or the error are EncodeSpec's: the mask or-ed with the value when it fits the prefix, else 2^N-1 then base-128 groups low first with the top bit on all but the last |
| HpackInteger.Decode | WRM.HTTP.HTTP2/HPACK/HpackInteger.cs:37-76 | the value and the octets consumed are DecodeSpec's, with the int32 accumulation and multiplier wrapping as in the source |
| HpackInteger.DecodeStep | WRM.HTTP.HTTP2/HPACK/HpackInteger.cs:60-73 | one pass of the decode loop keeps the wrapped value and multiplier in step with the unbounded sum of the groups read |
| HpackInteger.GroupsOfContinuation | WRM.HTTP.HTTP2/HPACK/HpackInteger.cs:25-31 | the continuation octets of v read back as v, wherever they sit and whatever follows them |
| HpackInteger.FirstOctetIs | WRM.HTTP.HTTP2/HPACK/HpackInteger.cs:13-21 | the first octet is the mask or-ed with the value, or with 2^N - 1 once the value does not fit |
| HpackInteger.FirstOctetRange | WRM.HTTP.HTTP2/HPACK/HpackInteger.cs:13-21 | the first octet lies between the mask and the mask plus 2^N - 1 |
| HpackInteger.DecodeEncode | WRM.HTTP.HTTP2/HPACK/HpackInteger.cs:5-76 | every non-negative int32 encodes, and decoding its encoding followed by anything gives the value back and consumes exactly the encoding |
| HpackInteger.DecodeEncodeShort | WRM.HTTP.HTTP2/HPACK/HpackInteger.cs:13-56 | a value below 2^N - 1 is one octet and decodes from it alone |
| HpackInteger.DecodeShort | WRM.HTTP.HTTP2/HPACK/HpackInteger.cs:49-56 | a first octet whose prefix is below 2^N - 1 is the whole integer |
| HpackInteger.DecodeEncodeLong | WRM.HTTP.HTTP2/HPACK/HpackInteger.cs:18-73 | a value of at least 2^N - 1 decodes from its saturated prefix and continuation octets |
| HpackInteger.DecodeLong | WRM.HTTP.HTTP2/HPACK/HpackInteger.cs:58-73 | a saturated prefix followed by continuation octets worth x decodes to 2^N - 1 + x when that fits an int32 |
| HpackInteger.DecodeIgnoresTrailing | WRM.HTTP.HTTP2/HPACK/HpackInteger.cs:37-76 | Decode reads no octet past the ones it reports as consumed |
| HpackInteger.GroupsStopAtFirstClear | WRM.HTTP.HTTP2/HPACK/HpackInteger.cs:68-72 | the run ends at the first octet whose top bit is clear |
| HpackInteger.DecodeIncomplete | WRM.HTTP.HTTP2/HPACK/HpackInteger.cs:60-75 | a saturated prefix followed only by octets with the top bit set throws the incomplete-encoding error |
| HpackStaticTable.Prefix | WRM.Core/Plugins/Http2/HPACK/HpackStaticTable.cs:9-72 | the table is built entry by entry from the listed pairs |
| HpackStaticTable.Count | WRM.Core/Plugins/Http2/HPACK/HpackStaticTable.cs:77 | Count is the table's length, 61 |
| HpackStaticTable.GetEntry | WRM.Core/Plugins/Http2/HPACK/HpackStaticTable.cs:82-88 | succeeds exactly for indexes 1..61 and returns entry index - 1; any other index is an out-of-range error |
| HpackStaticTable.ExactIndex | WRM.Core/Plugins/Http2/HPACK/HpackStaticTable.cs:93-106 | 0 when no entry matches the name ignoring case and the value exactly, else the smallest 1-based index of such an entry |
| HpackStaticTable.FindIndex | WRM.Core/Plugins/Http2/HPACK/HpackStaticTable.cs:93-106 | the loop returns ExactIndex |
| HpackStaticTable.NameIndex | WRM.Core/Plugins/Http2/HPACK/HpackStaticTable.cs:111-120 | 0 when no entry's name matches ignoring case, else the smallest 1-based index of such an entry |
| HpackStaticTable.FindNameIndex | WRM.Core/Plugins/Http2/HPACK/HpackStaticTable.cs:111-120 | the loop returns NameIndex |
| HpackStaticTable.FindIndexImpliesName | WRM.Core/Plugins/Http2/HPACK/HpackStaticTable.cs:93-120 | a full match implies a name match at the same index or earlier |
| HpackStaticTable.FoundEntriesMatch | WRM.Core/Plugins/Http2/HPACK/HpackStaticTable.cs:82-120 | whatever either search finds can be fetched with GetEntry and matches the query |
| HpackDynamicTable.EntrySize | WRM.Core/Plugins/Http2/HPACK/HpackDynamicTable.cs:119-122 | an entry's size is its name length plus its value length plus 32 |
| HpackDynamicTable.Size | WRM.Core/Plugins/Http2/HPACK/HpackDynamicTable.cs:12-134 | the current size is at least 32 per entry and is 0 exactly for an empty table |
| HpackDynamicTable.SizeAppend | WRM.Core/Plugins/Http2/HPACK/HpackDynamicTable.cs:12-134 | the size of two runs of entries is the sum of their sizes |
| HpackDynamicTable.Evicted | WRM.Core/Plugins/Http2/HPACK/HpackDynamicTable.cs:127-136 | eviction keeps a prefix of the entries (the newest), which fits the maximum or is empty, and drops no entry it did not have to |
| HpackDynamicTable.Added | WRM.Core/Plugins/Http2/HPACK/HpackDynamicTable.cs:46-63 | after Add the table fits its maximum |
| HpackDynamicTable.AddedShape | WRM.Core/Plugins/Http2/HPACK/HpackDynamicTable.cs:46-63 | an entry larger than the maximum empties the table; otherwise the new entry goes first, followed by a prefix of the old entries |
| HpackDynamicTable.GetEntry | WRM.Core/Plugins/Http2/HPACK/HpackDynamicTable.cs:68-74 | succeeds exactly for indexes 0..Count-1 and returns that entry; any other index is an out-of-range error |
| HpackDynamicTable.Find | WRM.Core/Plugins/Http2/HPACK/HpackDynamicTable.cs:80-104 | the index is -1 or an entry's position, and an exact match always comes with an index |
| HpackDynamicTable.FindCharacterized | WRM.Core/Plugins/Http2/HPACK/HpackDynamicTable.cs:80-104 | an exact match is the first entry matching name (ignoring case) and value; without one, the index is the first entry whose name matches, or -1 when none does |
| HpackDynamicTable.DynamicTable.constructor | WRM.Core/Plugins/Http2/HPACK/HpackDynamicTable.cs:15-18 | a new table is empty, with the given maximum and the size invariant |
| HpackDynamicTable.DynamicTable.SetMaxSize | WRM.Core/Plugins/Http2/HPACK/HpackDynamicTable.cs:33-41 | stores the new maximum and evicts the oldest entries until the table fits, keeping CurrentSize the sum of the entry sizes |
| HpackDynamicTable.DynamicTable.Add | WRM.Core/Plugins/Http2/HPACK/HpackDynamicTable.cs:46-63 | the entries become Added of the old entries, the maximum is unchanged and the size invariant holds |
| HpackDynamicTable.DynamicTable.FindIndex | WRM.Core/Plugins/Http2/HPACK/HpackDynamicTable.cs:80-104 | the loop returns Find of the entries |
| HpackDynamicTable.DynamicTable.Clear | WRM.Core/Plugins/Http2/HPACK/HpackDynamicTable.cs:109-113 | empties the table and zeroes the size, keeping the maximum |
| HpackDynamicTable.DynamicTable.Evict | WRM.Core/Plugins/Http2/HPACK/HpackDynamicTable.cs:127-136 | drops the last (oldest) entries until the size fits or the table is empty: the entries become Evicted of the old ones |
| HpackDynamicTable.CountBound | WRM.Core/Plugins/Http2/HPACK/HpackDynamicTable.cs:11-129 | a table that fits an int32 maximum holds fewer than 2^26 entries |
| HpackEncoder.StringOctets | WRM.Core/Plugins/Http2/HPACK/HpackEncoder.cs:104-114 | a string literal ends with the string's octets after a length prefix |
| HpackEncoder.LiteralNameIndex | WRM.Core/Plugins/Http2/HPACK/HpackEncoder.cs:70-79 | the name index of a literal is at most 61 plus the dynamic entry count |
| HpackEncoder.LiteralNameIndexFinds | WRM.Core/Plugins/Http2/HPACK/HpackEncoder.cs:70-79 | a literal's name index points at an entry with the same name ignoring case, static first then dynamic offset by 61; 0 means no table knows the name |
| HpackEncoder.StaticRepresentation | WRM.Core/Plugins/Http2/HPACK/HpackEncoder.cs:48-55 | a header in the static table is sent as its 1-based index under a 7-bit prefix with 0x80 |
| HpackEncoder.DynamicRepresentation | WRM.Core/Plugins/Http2/HPACK/HpackEncoder.cs:58-66 | a header found exactly in the dynamic table is sent as 61 plus its position plus 1 under 0x80 |
| HpackEncoder.LiteralRepresentation | WRM.Core/Plugins/Http2/HPACK/HpackEncoder.cs:68-95 | any other header is a literal with incremental indexing: a 6-bit name index under 0x40, or 0x40 and a name string, then the value string |
| HpackEncoder.EncodeBlock | WRM.Core/Plugins/Http2/HPACK/HpackEncoder.cs:30-40 | the dynamic table after a whole header list still fits its maximum |
| HpackEncoder.EncodeBlockStep | WRM.Core/Plugins/Http2/HPACK/HpackEncoder.cs:34-37 | the block is the representation of the first header, then the block of the rest over the updated table |
| HpackEncoder.RepresentationKind | WRM.Core/Plugins/Http2/HPACK/HpackEncoder.cs:48-98 | an indexed header starts with an octet of at least 0x80 and leaves the table alone; a literal starts in 0x40..0x7F |
| HpackEncoder.Encoder.constructor | WRM.Core/Plugins/Http2/HPACK/HpackEncoder.cs:13-16 | a new encoder has an empty table with the given maximum |
| HpackEncoder.Encoder.SetMaxDynamicTableSize | WRM.Core/Plugins/Http2/HPACK/HpackEncoder.cs:21-25 | forwards the new maximum to the table, which evicts |
| HpackEncoder.Encoder.Encode | WRM.Core/Plugins/Http2/HPACK/HpackEncoder.cs:30-40 | the octets returned and the table left behind are EncodeBlock of the headers over the old table |
| HpackEncoder.Encoder.EncodeHeader | WRM.Core/Plugins/Http2/HPACK/HpackEncoder.cs:45-99 | appends the header's representation to the output and leaves the table as After says |
| HpackEncoder.Encoder.EncodeLiteral | WRM.Core/Plugins/Http2/HPACK/HpackEncoder.cs:68-98 | appends the literal representation and adds the header to the table |
| HpackEncoder.Encoder.EncodeString | WRM.Core/Plugins/Http2/HPACK/HpackEncoder.cs:104-114 | appends the length under a 7-bit prefix with H clear, then the octets |
| HpackDecoder.GetIndexedHeader | WRM.HTTP.HTTP2/HPACK/HpackDecoder.cs:155-169 | indexes 1..61 name the static table and the next ones the dynamic entries newest first; index <= 0 is an argument error and one past the tables is out of range |
| HpackDecoder.DecodeStringSpec | WRM.HTTP.HTTP2/HPACK/HpackDecoder.cs:119-150 | an empty buffer is an error; a decoded string consumed between 1 and all the octets |
| HpackDecoder.LiteralName | WRM.HTTP.HTTP2/HPACK/HpackDecoder.cs:87-99 | the name of a literal comes from a table entry or a string literal and ends within the buffer |
| HpackDecoder.LiteralSpec | WRM.HTTP.HTTP2/HPACK/HpackDecoder.cs:75-114 | a decoded literal consumed at least one octet, and the table afterwards has the header added exactly when addToTable is set |
| HpackDecoder.FieldSpec | WRM.HTTP.HTTP2/HPACK/HpackDecoder.cs:33-66 | one representation consumes between 1 and all octets and keeps the table within its maximum |
| HpackDecoder.DecodeBlock | WRM.HTTP.HTTP2/HPACK/HpackDecoder.cs:26-70 | decoding a block keeps the table within its maximum |
| HpackDecoder.DecodeStep | WRM.HTTP.HTTP2/HPACK/HpackDecoder.cs:31-67 | decoding goes on after a representation that decodes, from the offset after it with the table it left |
| HpackDecoder.DecodeStop | WRM.HTTP.HTTP2/HPACK/HpackDecoder.cs:31-67 | decoding stops at the first representation that fails, with its error and the table as it was then |
| HpackDecoder.Decoder.constructor | WRM.HTTP.HTTP2/HPACK/HpackDecoder.cs:9-12 | a new decoder has an empty table with the given maximum |
| HpackDecoder.Decoder.SetMaxDynamicTableSize | WRM.HTTP.HTTP2/HPACK/HpackDecoder.cs:17-21 | forwards the new maximum to the table, which evicts |
| HpackDecoder.Decoder.Decode | WRM.HTTP.HTTP2/HPACK/HpackDecoder.cs:26-70 | the headers or the error, and the table left behind, are DecodeBlock of the block over the old table |
| HpackDecoder.Decoder.DecodeRepresentation | WRM.HTTP.HTTP2/HPACK/HpackDecoder.cs:33-66 | one pass of the loop gives FieldSpec; the table changes only when it succeeds |
| HpackDecoder.Decoder.DecodeLiteralHeader | WRM.HTTP.HTTP2/HPACK/HpackDecoder.cs:75-114 | returns the header and octets LiteralSpec gives and updates the table as it says; on an error the table is unchanged |
| HpackDecoder.Decoder.DecodeString | WRM.HTTP.HTTP2/HPACK/HpackDecoder.cs:119-150 | returns DecodeStringSpec: the length under a 7-bit prefix, then that many octets, Huffman-decoded when the first octet's top bit is set |
| HpackRoundTrip.MirrorsSize | WRM.Core/Plugins/Http2/HPACK/HpackDynamicTable.cs:119-122 | tables that match entry for entry have the same size |
| HpackRoundTrip.MirrorsEvicted | WRM.Core/Plugins/Http2/HPACK/HpackDynamicTable.cs:127-136 | mirrored tables evict the same entries |
| HpackRoundTrip.MirrorsAdded | WRM.Core/Plugins/Http2/HPACK/HpackDynamicTable.cs:46-63 | adding matching headers to mirrored tables keeps them mirrored |
| HpackRoundTrip.StringLengthRoundTrip | WRM.Core/Plugins/Http2/HPACK/HpackEncoder.cs:104-114 | the length prefix the encoder writes has H clear and reads back as the string length |
| HpackRoundTrip.StringRoundTrip | WRM.HTTP.HTTP2/HPACK/HpackDecoder.cs:119-150 | a string literal the encoder writes decodes to the same string and is consumed exactly, whatever follows |
| HpackRoundTrip.IndexedRoundTrip | WRM.HTTP.HTTP2/HPACK/HpackDecoder.cs:36-44 | an index written under 0x80 starts with the indexed-field bit and reads back as that index |
| HpackRoundTrip.LiteralIndexRoundTrip | WRM.HTTP.HTTP2/HPACK/HpackDecoder.cs:45-49 | a name index written under 0x40 is read as a literal with incremental indexing carrying that index |
| HpackRoundTrip.StaticIndexedField | WRM.Core/Plugins/Http2/HPACK/HpackEncoder.cs:48-55 | a header sent as a static index decodes to a matching header and leaves both tables mirrored |
| HpackRoundTrip.DynamicIndexedField | WRM.Core/Plugins/Http2/HPACK/HpackEncoder.cs:58-66 | a header sent as a dynamic index decodes to a matching header from the mirrored table |
| HpackRoundTrip.IndexedNameField | WRM.Core/Plugins/Http2/HPACK/HpackEncoder.cs:81-98 | a literal with an indexed name decodes to a matching header and both tables add it |
| HpackRoundTrip.NewNameField | WRM.Core/Plugins/Http2/HPACK/HpackEncoder.cs:87-98 | a literal with a literal name decodes to the same header and both tables add it |
| HpackRoundTrip.FieldRoundTrip | WRM.Core/Plugins/Http2/HPACK/HpackEncoder.cs:45-99 | every representation the encoder writes, followed by anything, decodes to a header matching the one encoded, consumes exactly the representation, and keeps the tables mirrored |
| HpackRoundTrip.BlockRoundTrip | WRM.HTTP.HTTP2/HPACK/HpackDecoder.cs:26-70 | decoding a block the encoder wrote from mirrored tables succeeds, yields headers matching the originals one for one, and leaves the tables mirrored |
| HpackRoundTrip.FreshRoundTrip | WRM.Core/Plugins/Http2/HPACK/HpackEncoder.cs:30-40 | a fresh encoder and a fresh decoder with the same maximum agree on every header list |
| Http2Connection.GetOrAdd | WRM.Core/Plugins/Http2/Connection/Http2Connection.cs:60-67 | the id is then present, holding the stream that was there or a new Idle stream; every other stream is unchanged and no other key appears |
| Http2Connection.GetOrAddWellKeyed | WRM.Core/Plugins/Http2/Connection/Http2Connection.cs:60-67 | GetOrAdd keeps every stream stored under its own id |
| Http2Connection.Http2Connection.constructor | WRM.Core/Plugins/Http2/Connection/Http2Connection.cs:14-25 | a new connection has no streams, next id 1, default settings on both sides, empty encoder and decoder tables of 4096, and no reader or writer |
| Http2Connection.Http2Connection.Initialize | WRM.Core/Plugins/Http2/Connection/Http2Connection.cs:37-45 | records the role, attaches a new reader and writer to the one network stream, and sets the next id to 2 for a server and 1 for a client |
| Http2Connection.Http2Connection.GetNextStreamId | WRM.Core/Plugins/Http2/Connection/Http2Connection.cs:50-55 | returns the counter and moves it on by two, wrapping as an int |
| Http2Connection.Http2Connection.GetOrCreateStream | WRM.Core/Plugins/Http2/Connection/Http2Connection.cs:60-67 | the table becomes GetOrAdd of the old table and the stream returned is the one stored under the id |
| Http2Connection.Http2Connection.RemoveStream | WRM.Core/Plugins/Http2/Connection/Http2Connection.cs:72-75 | returns whether the id was present and removes it, changing nothing else |
| Http2Connection.NextId | WRM.Core/Plugins/Http2/Connection/Http2Connection.cs:53 | the counter after a call keeps its parity, and is the old value plus 2 while that fits an int |
| Http2Connection.Allocated | WRM.Core/Plugins/Http2/Connection/Http2Connection.cs:50-55 | n calls return n ids |
| Http2Connection.AllocatedIncreasing | WRM.Core/Plugins/Http2/Connection/Http2Connection.cs:50-55 | without a wrap, the i-th id handed out is the start plus 2i, so the ids increase and keep the start's parity |
| Http2Connection.AllocatedParity | WRM.Core/Plugins/Http2/Connection/Http2Connection.cs:44-53 | every id handed out, even after the counter wraps, has the parity of the start: odd for a client, even for a server |
| Http2FrameDispatchStep.RstFrame | WRM.Core/Plugins/Http2/Steps/Http2FrameDispatchStep.cs:266-283 | the RST_STREAM frame sent is consistent and the writer accepts it |
| Http2FrameDispatchStep.RstFrameParses | WRM.Core/Plugins/Http2/Steps/Http2FrameDispatchStep.cs:266-283 | on a non-zero stream it is the frame RstStreamFrame.ToFrame builds and parses back to its error code |
| Http2FrameDispatchStep.DispatchSpec | WRM.Core/Plugins/Http2/Steps/Http2FrameDispatchStep.cs:57-98 | handling one frame writes at most one frame, and every frame written is one the writer accepts |
| Http2FrameDispatchStep.DataOnClosedStream | WRM.Core/Plugins/Http2/Steps/Http2FrameDispatchStep.cs:100-111 | a DATA frame makes the handler write a frame exactly when it parses and its stream is neither Open nor HalfClosedLocal; that frame is RST_STREAM with code 5 (STREAM_CLOSED), and the stream is only created if missing |
| Http2FrameDispatchStep.DataAppended | WRM.Core/Plugins/Http2/Steps/Http2FrameDispatchStep.cs:113-131 | on a receiving stream the data is appended to the body (created if missing), nothing is written, no other stream changes, and END_STREAM moves HalfClosedLocal to Closed and anything else to HalfClosedRemote |
| Http2FrameDispatchStep.AckWritesNothing | WRM.Core/Plugins/Http2/Steps/Http2FrameDispatchStep.cs:207-242 | a SETTINGS or PING ACK changes nothing and writes nothing; a PING is echoed once with ACK, stream 0 and the same payload; a SETTINGS frame is answered by one ACK exactly when it applies without error |
| Http2FrameDispatchStep.RstRemovesStream | WRM.Core/Plugins/Http2/Steps/Http2FrameDispatchStep.cs:250-257 | RST_STREAM removes exactly its stream id, writes nothing and changes nothing else |
| Http2FrameDispatchStep.DispatchWellKeyed | WRM.Core/Plugins/Http2/Steps/Http2FrameDispatchStep.cs:57-98 | every handler keeps each stream stored under its own id |
| Http2FrameDispatchStep.RunSpec | WRM.Core/Plugins/Http2/Steps/Http2FrameDispatchStep.cs:30-53 | the loop never consumes more octets than there are |
| Http2FrameDispatchStep.RunTurn | WRM.Core/Plugins/Http2/Steps/Http2FrameDispatchStep.cs:43-46 | one turn consumes at most the frame and what follows it |
| Http2FrameDispatchStep.ReadFrameFits | WRM.Core/Plugins/Http2/Steps/Http2FrameDispatchStep.cs:35 | every frame the reader returns is consistent and shorter than 2^24 octets |
| Http2FrameDispatchStep.RunFrameFails | WRM.Core/Plugins/Http2/Steps/Http2FrameDispatchStep.cs:44-53 | a turn whose handler throws ends the loop with that error, without calling next again |
| Http2FrameDispatchStep.RunFrameContinues | WRM.Core/Plugins/Http2/Steps/Http2FrameDispatchStep.cs:43-46 | a turn whose handler succeeds calls next once and goes on with the octets after the frame |
| Http2FrameDispatchStep.RunEnd | WRM.Core/Plugins/Http2/Steps/Http2FrameDispatchStep.cs:35-41 | the end of the stream calls next once and ends the loop; a failed read ends it with the error and no call |
| Http2FrameDispatchStep.NextsCountFrames | WRM.Core/Plugins/Http2/Steps/Http2FrameDispatchStep.cs:33-46 | a loop that ends normally has called next once per frame plus once at the end, having read every octet; one that fails has called it at most once per frame |
| Http2FrameDispatchStep.RunWellKeyed | WRM.Core/Plugins/Http2/Steps/Http2FrameDispatchStep.cs:33-46 | the frame loop keeps every stream stored under its own id |
| Http2FrameDispatchStep.SendRstStream | WRM.Core/Plugins/Http2/Steps/Http2FrameDispatchStep.cs:266-283 | appends exactly the RST_STREAM frame with the big-endian error code to the output |
| Http2FrameDispatchStep.HandleDataFrame | WRM.Core/Plugins/Http2/Steps/Http2FrameDispatchStep.cs:100-132 | the result, the connection state and the frames written are HandleDataSpec's |
| Http2FrameDispatchStep.CollectFields | WRM.Core/Plugins/Http2/Steps/Http2FrameDispatchStep.cs:146-174 | the loop keeps :method, :path and :authority and stores every name not starting with a colon in the case-insensitive dictionary, last value winning |
| Http2FrameDispatchStep.CopyHeaders | WRM.Core/Plugins/Http2/Steps/Http2FrameDispatchStep.cs:190-194 | the loop copies the headers into the request's dictionary |
| Http2FrameDispatchStep.BuildRequest | WRM.Core/Plugins/Http2/Steps/Http2FrameDispatchStep.cs:145-194 | the request is RequestOf the decoded list: method, path, version "HTTP/2.0", and the headers with a non-empty authority stored as Host |
| Http2FrameDispatchStep.HandleHeadersFrame | WRM.Core/Plugins/Http2/Steps/Http2FrameDispatchStep.cs:134-205 | the result, the connection state (including the decoder's table) and the frames written are HandleHeadersSpec's |
| Http2FrameDispatchStep.HandleSettingsFrame | WRM.Core/Plugins/Http2/Steps/Http2FrameDispatchStep.cs:207-221 | the result, the peer's settings and the frames written are HandleSettingsSpec's |
| Http2FrameDispatchStep.HandlePingFrame | WRM.Core/Plugins/Http2/Steps/Http2FrameDispatchStep.cs:223-242 | the result and the frames written are HandlePingSpec's; the state is unchanged |
| Http2FrameDispatchStep.HandleRstStreamFrame | WRM.Core/Plugins/Http2/Steps/Http2FrameDispatchStep.cs:250-257 | the result and the new stream table are HandleRstSpec's; nothing is written |
| Http2FrameDispatchStep.DispatchFrame | WRM.Core/Plugins/Http2/Steps/Http2FrameDispatchStep.cs:57-98 | the result, the connection state and the frames written are DispatchSpec's |
| Http2FrameDispatchStep.DispatchFrames | WRM.Core/Plugins/Http2/Steps/Http2FrameDispatchStep.cs:30-53 | the loop's result, calls of next, final state, frames written and octets read are those of RunSpec over what was left on the stream |
| Http2FrameDispatchStep.InvokeAsync | WRM.Core/Plugins/Http2/Steps/Http2FrameDispatchStep.cs:15-55 | without an "http2" connection, or before the handshake, next is called once and nothing changes; otherwise the frame loop runs as RunSpec says |
| HeadersFrame.PadField | WRM.HTTP.HTTP2/Frames/HeadersFrame.cs:40-47 | with PADDED the pad length is the first octet, which must exist; the offset after it stays within the payload |
| HeadersFrame.PriorityField | WRM.HTTP.HTTP2/Frames/HeadersFrame.cs:50-63 | with PRIORITY five octets must follow the offset; the offset after them stays within the payload |
| HeadersFrame.SplitPayload | WRM.HTTP.HTTP2/Frames/HeadersFrame.cs:24-68 | the block lies between the offset after the optional fields and the padding; the flags are copied, and the dependency is the low 31 bits of its word |
| HeadersFrame.ParseSpec | WRM.HTTP.HTTP2/Frames/HeadersFrame.cs:22-78 | a framing error leaves the decoder's table alone; a parsed frame carries the fields SplitPayload read |
| HeadersFrame.Parse | WRM.HTTP.HTTP2/Frames/HeadersFrame.cs:22-78 | the result and the decoder's table afterwards are ParseSpec's: the framing checks, then the HPACK block decoded when it is not empty |
| HeadersFrame.Assemble | WRM.HTTP.HTTP2/Frames/HeadersFrame.cs:91-141 | the frame is HEADERS on the stream with the laid-out payload, END_STREAM and END_HEADERS as given, PADDED exactly when padLength is positive and PRIORITY exactly when HasPriority |
| HeadersFrame.ToFrame | WRM.HTTP.HTTP2/Frames/HeadersFrame.cs:83-142 | stream 0 is an argument error that leaves the encoder's table alone; otherwise the frame is assembled around the encoder's block and the table is as the encoder leaves it |
| HeadersFrame.SplitAssemble | WRM.HTTP.HTTP2/Frames/HeadersFrame.cs:22-142 | Parse finds in a frame ToFrame built the same flags, pad length and priority fields and exactly the block that was laid out |
| HeadersFrame.PriorityFieldOfAssemble | WRM.HTTP.HTTP2/Frames/HeadersFrame.cs:50-121 | the priority word ToFrame writes reads back as the same dependency and Exclusive flag |
| HeadersFrame.ParseToFrame | WRM.HTTP.HTTP2/Frames/HeadersFrame.cs:22-142 | with mirrored HPACK tables, Parse of ToFrame succeeds with the same fields and headers matching the originals, and leaves the tables mirrored |
| Http2PrefaceStep.IsPrefaceValid | WRM.Core/Plugins/Http2/Steps/Http2PrefaceStep.cs:137-149 | true exactly when the octets are the 24 preface octets |
| Http2PrefaceStep.HandshakeFramesWritable | WRM.Core/Plugins/Http2/Steps/Http2PrefaceStep.cs:84-98 | the server's SETTINGS frame (three parameters, 18 octets) and the empty ACK are both accepted by the writer |
| Http2PrefaceStep.SettingsExchange | WRM.Core/Plugins/Http2/Steps/Http2PrefaceStep.cs:63-116 | the exchange after the first frame consumes no more octets than follow it |
| Http2PrefaceStep.AfterPreface | WRM.Core/Plugins/Http2/Steps/Http2PrefaceStep.cs:63-75 | the handshake after the preface consumes no more octets than there are |
| Http2PrefaceStep.HandshakeSpec | WRM.Core/Plugins/Http2/Steps/Http2PrefaceStep.cs:45-116 | the whole handshake consumes no more octets than there are |
| Http2PrefaceStep.HandshakeSucceeded | WRM.Core/Plugins/Http2/Steps/Http2PrefaceStep.cs:45-118 | a handshake that succeeds read all 24 preface octets, then a SETTINGS frame, and wrote exactly the server's SETTINGS and the ACK |
| Http2PrefaceStep.EarlyFailureWritesNothing | WRM.Core/Plugins/Http2/Steps/Http2PrefaceStep.cs:48-75 | a short or wrong preface, or a first frame that is missing or not SETTINGS, fails with an invalid operation, writes nothing and keeps the remote settings |
| Http2PrefaceStep.PrefaceThen | WRM.Core/Plugins/Http2/Steps/Http2PrefaceStep.cs:45-63 | after the preface the handshake goes on with the octets that follow it |
| Http2PrefaceStep.FirstFrameRead | WRM.Core/Plugins/Http2/Steps/Http2PrefaceStep.cs:63 | a first frame present in full hands the octets behind it to the settings exchange |
| Http2PrefaceStep.SettingsAccepted | WRM.Core/Plugins/Http2/Steps/Http2PrefaceStep.cs:79-110 | a SETTINGS frame that applies without error, followed by any frame, completes the exchange: the settings are applied, two frames are written, and the second frame is read without being checked |
| Http2PrefaceStep.SettingsThenFrame | WRM.Core/Plugins/Http2/Steps/Http2PrefaceStep.cs:63-110 | the client's SETTINGS frame followed by any frame completes the exchange after the preface |
| Http2PrefaceStep.SettingsWritable | WRM.Core/Plugins/Http2/Steps/Http2PrefaceStep.cs:63-70 | a client SETTINGS frame whose payload fits the 24-bit length can be written, and is consistent |
| Http2PrefaceStep.ClientHandshake | WRM.Core/Plugins/Http2/Steps/Http2PrefaceStep.cs:45-118 | a client sending the preface, a SETTINGS frame that applies and the ACK completes the handshake, consuming exactly those octets |
| Http2PrefaceStep.ReadPreface | WRM.Core/Plugins/Http2/Steps/Http2PrefaceStep.cs:45-58 | a single read of up to 24 octets; valid exactly when all 24 arrived and are the preface |
| Http2PrefaceStep.ReceiveSettings | WRM.Core/Plugins/Http2/Steps/Http2PrefaceStep.cs:63-80 | reads one frame; a read error or the end of the stream fails and keeps the remote settings, otherwise ApplyFirst says how the settings change and whether it succeeded |
| Http2PrefaceStep.SendSettings | WRM.Core/Plugins/Http2/Steps/Http2PrefaceStep.cs:84-98 | appends the server's SETTINGS frame, then the SETTINGS ACK |
| Http2PrefaceStep.Handshake | WRM.Core/Plugins/Http2/Steps/Http2PrefaceStep.cs:41-132 | the result, the remote settings, the octets consumed and the frames written are HandshakeSpec's |
| Http2PrefaceStep.AfterPrefaceRun | WRM.Core/Plugins/Http2/Steps/Http2PrefaceStep.cs:63-110 | after the preface, the result, the remote settings, the octets consumed and the frames written are AfterPreface's |
| Http2PrefaceStep.Establish | WRM.Core/Plugins/Http2/Steps/Http2PrefaceStep.cs:33-118 | a fresh server connection attached to the network stream, with no streams and next stream id 2, runs the handshake as HandshakeSpec says and is marked complete exactly when the handshake succeeds |
| Http2PrefaceStep.InvokeAsync | WRM.Core/Plugins/Http2/Steps/Http2PrefaceStep.cs:22-135 | when the detected protocol is not HTTP/2, next runs once and nothing changes; otherwise the handshake runs as HandshakeSpec says on what is left of the connection's stream, which after a detection step is everything the peer sent (FrontEnd.DetectThenHandshake), and on success a server connection with no streams and the handshake complete is stored under "http2" and next runs once, while on failure an invalid operation escapes and next does not run |
| Http2RequestStep.ResponseHeaders | WRM.HTTP.HTTP2/Steps/Http2RequestStep.cs:39-62 | four response headers, the last content-length carrying the body's octet count in decimal |
| Http2RequestStep.InternalError | WRM.HTTP.HTTP2/Steps/Http2RequestStep.cs:119-124 | the RST_STREAM frame of the inner catch is accepted by the writer and addressed to the stream |
| Http2RequestStep.Recover | WRM.HTTP.HTTP2/Steps/Http2RequestStep.cs:92-126 | the catch block keeps the stream, keeps the encoder's table fitting, and lets an exception escape exactly on stream 0 |
| Http2RequestStep.Process | WRM.HTTP.HTTP2/Steps/Http2RequestStep.cs:32-127 | processing a stream keeps the encoder's table within its maximum size |
| Http2RequestStep.Respond | WRM.HTTP.HTTP2/Steps/Http2RequestStep.cs:64-126 | from the HEADERS frame on, the encoder's table keeps fitting |
| Http2RequestStep.Deliver | WRM.HTTP.HTTP2/Steps/Http2RequestStep.cs:76-126 | after the HEADERS frame, the encoder's table keeps fitting |
| Http2RequestStep.HeadWritable | WRM.HTTP.HTTP2/Steps/Http2RequestStep.cs:65-74 | the response HEADERS frame carries the encoded block alone with END_HEADERS, END_STREAM as asked, and the writer accepts it exactly when the block fits 24 bits |
| Http2RequestStep.DataWritable | WRM.HTTP.HTTP2/Steps/Http2RequestStep.cs:77-85 | the DATA frame carries the body with END_STREAM, and the writer accepts it exactly when the body fits 24 bits |
| Http2RequestStep.CatchFrameWritten | WRM.HTTP.HTTP2/Steps/Http2RequestStep.cs:97-125 | the catch block always writes one accepted frame: the 500 HEADERS frame with END_STREAM when its block fits, RST_STREAM with INTERNAL_ERROR otherwise |
| Http2RequestStep.RecoverShape | WRM.HTTP.HTTP2/Steps/Http2RequestStep.cs:92-126 | the catch block lets an exception escape exactly on stream 0, writing nothing then; otherwise it appends exactly one frame |
| Http2RequestStep.ProcessEscapes | WRM.HTTP.HTTP2/Steps/Http2RequestStep.cs:32-127 | an exception escapes ProcessStreamAsync exactly for stream 0, with nothing written; only the stream's state can change, and only to Closed |
| Http2RequestStep.RespondHeadRefused | WRM.HTTP.HTTP2/Steps/Http2RequestStep.cs:72-74 | a HEADERS frame the writer refuses leads to the catch block with nothing written |
| Http2RequestStep.RespondHeadSent | WRM.HTTP.HTTP2/Steps/Http2RequestStep.cs:72-85 | a HEADERS frame the writer accepts is followed by the DATA frame |
| Http2RequestStep.DeliverRefused | WRM.HTTP.HTTP2/Steps/Http2RequestStep.cs:83-85 | a DATA frame the writer refuses leads to the catch block after the HEADERS frame |
| Http2RequestStep.DeliverAnswered | WRM.HTTP.HTTP2/Steps/Http2RequestStep.cs:83-88 | a DATA frame the writer accepts completes the response and closes the stream |
| Http2RequestStep.ProcessAnswers | WRM.HTTP.HTTP2/Steps/Http2RequestStep.cs:32-90 | a stream with an id whose frames fit is answered with the HEADERS frame and the DATA frame and is closed |
| Http2RequestStep.ResponseReadsBack | WRM.HTTP.HTTP2/Steps/Http2RequestStep.cs:61-74 | the response HEADERS frame decodes, with a decoder mirroring the encoder's table, to the same header list, and its content-length reads back as the body's length |
| Http2RequestStep.OctetsText | WRM.HTTP.HTTP2/Steps/Http2RequestStep.cs:61 | ASCII text survives the trip to octets and back |
| Http2RequestStep.AnswerDisciplined | WRM.HTTP.HTTP2/Steps/Http2RequestStep.cs:32-127 | ProcessStreamAsync keeps the table fitting and changes only the stream's state |
| Http2RequestStep.AnswerProcesses | WRM.HTTP.HTTP2/Steps/Http2RequestStep.cs:32-127 | the scan's step is ProcessStreamAsync |
| Http2RequestStep.VisitEffect | WRM.HTTP.HTTP2/Steps/Http2RequestStep.cs:20-28 | one visit leaves the other streams alone; a stream that is not ready is skipped; an exception escapes exactly on a ready stream 0; otherwise next runs once and the stream is marked ResponseSent |
| Http2RequestStep.ServeKeeps | WRM.HTTP.HTTP2/Steps/Http2RequestStep.cs:18-29 | the scan keeps the table's ids and leaves every stream it did not find ready as it was |
| Http2RequestStep.ServeCount | WRM.HTTP.HTTP2/Steps/Http2RequestStep.cs:18-29 | when no exception escapes, next ran once per ready stream |
| Http2RequestStep.ServeAnswers | WRM.HTTP.HTTP2/Steps/Http2RequestStep.cs:18-29 | when no exception escapes, every ready stream is marked ResponseSent and is closed or keeps its state, nothing else about it changing |
| Http2RequestStep.ServeEscapes | WRM.HTTP.HTTP2/Steps/Http2RequestStep.cs:18-29 | an exception escapes the scan exactly when a ready stream it reaches has id 0 |
| Http2RequestStep.NothingReady | WRM.HTTP.HTTP2/Steps/Http2RequestStep.cs:18-24 | a table with no ready stream is left alone: nothing is written and next does not run |
| Http2RequestStep.SecondScanIdle | WRM.HTTP.HTTP2/Steps/Http2RequestStep.cs:18-29 | after a full scan without an exception, a second scan changes nothing |
| Http2RequestStep.RecoverOutput | WRM.HTTP.HTTP2/Steps/Http2RequestStep.cs:92-126 | on a non-zero stream the catch block appends exactly its one frame |
| Http2RequestStep.BuildText | WRM.HTTP.HTTP2/Steps/Http2RequestStep.cs:47-59 | the response text the loop builds is ResponseText: the fixed lines, then one line per request header |
| Http2RequestStep.SendCatch | WRM.HTTP.HTTP2/Steps/Http2RequestStep.cs:97-125 | writes the frame, or RST_STREAM with INTERNAL_ERROR when the writer refuses it |
| Http2RequestStep.SendReset | WRM.HTTP.HTTP2/Steps/Http2RequestStep.cs:119-124 | writes RST_STREAM with INTERNAL_ERROR |
| Http2RequestStep.RecoverStream | WRM.HTTP.HTTP2/Steps/Http2RequestStep.cs:92-126 | on stream 0 an argument error escapes and nothing changes; otherwise the 500 headers are encoded and the catch frame is written |
| Http2RequestStep.ProcessStream | WRM.HTTP.HTTP2/Steps/Http2RequestStep.cs:32-127 | the stream, the encoder's table and the output are as the scan's step says, and an error escapes exactly when the step says so |
| Http2RequestStep.ProcessBody | WRM.HTTP.HTTP2/Steps/Http2RequestStep.cs:61-126 | the stream, the encoder's table and the output are as Process says |
| Http2RequestStep.RespondStream | WRM.HTTP.HTTP2/Steps/Http2RequestStep.cs:64-126 | the stream, the encoder's table and the output are as Respond says |
| Http2RequestStep.SendHead | WRM.HTTP.HTTP2/Steps/Http2RequestStep.cs:65-74 | encodes the headers with the connection's encoder and writes the HEADERS frame exactly when its block fits 24 bits |
| Http2RequestStep.DeliverStream | WRM.HTTP.HTTP2/Steps/Http2RequestStep.cs:76-126 | the stream, the encoder's table and the output are as Deliver says |
| Http2RequestStep.WithCurrent | WRM.HTTP.HTTP2/Steps/Http2RequestStep.cs:25 | storing the current stream under "HTTP_CONTEXT" adds that key and keeps every other item |
| Http2RequestStep.VisitStream | WRM.HTTP.HTTP2/Steps/Http2RequestStep.cs:20-28 | one visit changes the connection, the output and the items as Visit says |
| Http2RequestStep.ServeStreams | WRM.HTTP.HTTP2/Steps/Http2RequestStep.cs:18-29 | the loop over the stream table ends in the state Serve gives for the order it enumerated |
| Http2RequestStep.InvokeAsync | WRM.HTTP.HTTP2/Steps/Http2RequestStep.cs:9-30 | without a connection under "http2", next runs once and nothing changes; otherwise the streams, the encoder, the output, the items and the count of next calls are as Serve says, an argument error escapes exactly when Serve's does, and a full scan visits every stream |
| Http1Syntax.SecondSpaceFacts | WRM.HTTP.HTTP1/Steps/Http1ParsingStep.cs:221-223 | the second half of the split either gives three parts that rejoin to the line with no space in the first two, or finds that the line has fewer than two spaces |
| Http1Syntax.FirstSpaceFacts | WRM.HTTP.HTTP1/Steps/Http1ParsingStep.cs:221-223 | the split either gives three parts that rejoin to the line with no space in the first two, or finds that the line has fewer than two spaces |
| Http1Syntax.RequestLineRoundTrip | WRM.HTTP.HTTP1/Steps/Http1ParsingStep.cs:221-230 | a request line written from a method and a path without spaces is split back into the same method, path and version |
| Http1Syntax.FirstSpaceAt | WRM.HTTP.HTTP1/Steps/Http1ParsingStep.cs:221 | the split cuts at the first space |
| Http1Syntax.SecondSpaceAt | WRM.HTTP.HTTP1/Steps/Http1ParsingStep.cs:221 | the split cuts again at the next space and the version keeps the rest, further spaces included |
| Http1Syntax.ParsedRequestLine | WRM.HTTP.HTTP1/Steps/Http1ParsingStep.cs:221-230 | a split that succeeds loses nothing: its parts joined with single spaces are the line, and the method and path hold no space |
| Http1Syntax.MalformedRequestLine | WRM.HTTP.HTTP1/Steps/Http1ParsingStep.cs:221-223 | a request line is rejected exactly when it does not hold two spaces |
| Http1Syntax.HeaderLineSplit | WRM.HTTP.HTTP1/Steps/Http1ParsingStep.cs:247-252 | the header line splits at its first ':', giving the trimmed name and value, and is skipped when that ':' is at position 0 |
| Http1Syntax.HeaderLineNone | WRM.HTTP.HTTP1/Steps/Http1ParsingStep.cs:247-249 | a line without a ':' is skipped |
| Http1Syntax.HeaderLineOf | WRM.HTTP.HTTP1/Steps/Http1ParsingStep.cs:247-254 | a well-formed header's line `name: value` is read back as that header |
| Http1Syntax.HeaderLineSkipped | WRM.HTTP.HTTP1/Steps/Http1ParsingStep.cs:247-249 | the lines skipped are exactly those with no ':' or with ':' first |
| Http1Syntax.GetHeaderFirst | WRM.HTTP.HTTP1/Steps/Http1ParsingStep.cs:421-426 | GetHeader gives the value of the first header whose name matches ignoring case, and null exactly when none matches |
| Http1Syntax.GetHeaderSingle | WRM.HTTP.HTTP1/Steps/Http1ParsingStep.cs:421-426 | on a single header, GetHeader gives its value exactly when its name matches |
| Http1Syntax.GetHeaderIsGet | WRM.HTTP.HTTP1/Steps/Http1ParsingStep.cs:421-426 | GetHeader agrees with the request-header lookup of WRM/WRM.Core |
| Http1Syntax.GetHeaderAppend | WRM.HTTP.HTTP1/Steps/Http1ParsingStep.cs:421-426 | in headers followed by more headers, the earlier ones are looked at first |
| Http1Syntax.KeepAliveCloseDiffer | WRM.HTTP.HTTP1/Steps/Http1ParsingStep.cs:67-76 | no Connection value is both "close" and "keep-alive" ignoring case |
| Http1Syntax.KeepAliveCases | WRM.HTTP.HTTP1/Steps/Http1ParsingStep.cs:62-76 | Connection: close ends the connection, Connection: keep-alive keeps it, and otherwise it stays open exactly when the version does not start with HTTP/1.0 |
| Http1Syntax.HeaderLinesSnoc | WRM.HTTP.HTTP1/Steps/Http1ParsingStep.cs:299-311 | one more header appends one more `name: value` line |
| Http1Syntax.HeaderLinesAppend | WRM.HTTP.HTTP1/Steps/Http1ParsingStep.cs:299-311 | the header lines of two header lists in a row are the lines of the first, then of the second |
| Http1Syntax.NamesDiffer | WRM.HTTP.HTTP1/Steps/Http1ParsingStep.cs:301-308 | the header names the writer adds differ from one another ignoring case |
| Http1Syntax.SeenHeader | WRM.HTTP.HTTP1/Steps/Http1ParsingStep.cs:299-309 | after one more header a name is present when it was before or the new header has it |
| Http1Syntax.Assemble | WRM.HTTP.HTTP1/Steps/Http1ParsingStep.cs:288-358 | the head a response writer builds from the status line, the handler's header lines already written and the headers it adds is the head text of the handler's headers followed by the added ones; the WRM/WRM.Core context writer builds its head the same way |
| Http1Head.ResumeNone | WRM.HTTP.HTTP1/Steps/Http1ParsingStep.cs:235-255 | resuming with nothing read leaves the outcome as it is |
| Http1Head.ResumeResume | WRM.HTTP.HTTP1/Steps/Http1ParsingStep.cs:235-255 | two stretches of the header loop resume as one |
| Http1Head.HeaderAtLine | WRM.HTTP.HTTP1/Steps/Http1ParsingStep.cs:237-255 | at a position where a line is read, the loop goes on with that line's text after the bytes it used |
| Http1Head.HeaderAtRead | WRM.HTTP.HTTP1/Steps/Http1ParsingStep.cs:237-240 | a null line leaves the section unended; otherwise the loop goes on with the line after the bytes the reader consumed |
| Http1Head.LineKept | WRM.HTTP.HTTP1/Steps/Http1ParsingStep.cs:240-255 | a line within the size limit that holds a header adds that header and the loop goes on with the size grown by the line's length plus two |
| Http1Head.HeaderAtKeeps | WRM.HTTP.HTTP1/Steps/Http1ParsingStep.cs:237-255 | a header line read at a position is kept and the loop goes on after it |
| Http1Head.HeaderAtEnds | WRM.HTTP.HTTP1/Steps/Http1ParsingStep.cs:240-245 | the empty line within the size limit ends the section with no further header, consuming the line |
| Http1Head.HeaderAtUsed | WRM.HTTP.HTTP1/Steps/Http1ParsingStep.cs:235-255 | a section that ends consumes at least one byte and no more than the input holds |
| Http1Head.ReadHeaderLine | WRM.HTTP.HTTP1/Steps/Http1ParsingStep.cs:237-255 | one turn of the loop: it ends the section as HeaderAt says, or keeps the line's headers and leaves the rest of the loop to HeaderAt from the new position |
| Http1Head.ReadHeaderSection | WRM.HTTP.HTTP1/Steps/Http1ParsingStep.cs:233-255 | the header loop's outcome is HeaderAt from where the stream stood, and the stream is left just after the empty line |
| Http1Head.DropCRKeeps | WRM/WRM.Core/Tools/StreamLineReader.cs:10-24 | a line ending in CR loses that CR |
| Http1Head.LineRead | WRM/WRM.Core/Tools/StreamLineReader.cs:10-24 | a line written as ASCII text and CR LF is read back as that text, consuming both |
| Http1Head.LineReadAt | WRM/WRM.Core/Tools/StreamLineReader.cs:10-24 | the same at any position of the input |
| Http1Head.HeaderKept | WRM.HTTP.HTTP1/Steps/Http1ParsingStep.cs:247-254 | a well-formed header's line is kept as that header unless the Cookie split refuses it |
| Http1Head.WrittenPlain | WRM.HTTP.HTTP1/Steps/Http1ParsingStep.cs:310 | a well-formed header's line is one non-empty ASCII line |
| Http1Head.SectionBytes | WRM.HTTP.HTTP1/Steps/Http1ParsingStep.cs:299-311 | a section's bytes are its first header's line, then the rest's |
| Http1Head.SectionSize1 | WRM.HTTP.HTTP1/Steps/Http1ParsingStep.cs:240 | the size a section adds is each line's length plus two |
| Http1Head.SectionStep | WRM.HTTP.HTTP1/Steps/Http1ParsingStep.cs:235-255 | a section with one more header in front is read back with that header in front |
| Http1Head.HeaderLineKept | WRM.HTTP.HTTP1/Steps/Http1ParsingStep.cs:237-255 | a written header line is kept and the loop goes on after it |
| Http1Head.SectionRoundTrip | WRM.HTTP.HTTP1/Steps/Http1ParsingStep.cs:233-255 | a header section written from well-formed headers within the size limit is read back as the same headers, consuming exactly its bytes |
| LineReader.NextLine | WRM/WRM.Core/Tools/StreamLineReader.cs:7-24 | a line the reader finds ends with the line feed it consumed, and it consumes at least that byte and no more than is left |
| LineReader.DropCR | WRM/WRM.Core/Tools/StreamLineReader.cs:19-20 | the kept bytes hold no carriage return and no more bytes than the input |
| LineReader.NextLineOf | WRM/WRM.Core/Tools/StreamLineReader.cs:11-23 | a line followed by a line feed is read as its bytes without carriage returns, consuming the line and the line feed |
| LineReader.NoLineAtEnd | WRM/WRM.Core/Tools/StreamLineReader.cs:13-15 | the reader returns null exactly when no line feed is left |
| LineReader.NextLineStep | WRM/WRM.Core/Tools/StreamLineReader.cs:11-21 | one byte read: a line feed ends the line, a carriage return is dropped, any other byte is kept, and the reader goes on |
| LineReader.LineAt | WRM/WRM.Core/Tools/StreamLineReader.cs:7-24 | a line read at a position consumes at least one byte and no more than the input holds |
| LineReader.LineAtIs | WRM/WRM.Core/Tools/StreamLineReader.cs:7-24 | the reader at a position reads what it would read on the rest of the input |
| LineReader.ReadOne | WRM/WRM.Core/Tools/StreamLineReader.cs:13-15 | a one-byte read gives the next byte and moves past it, or gives nothing at the end of the stream |
| LineReader.AfterAfter | WRM/WRM.Core/Tools/StreamLineReader.cs:11-21 | two stretches of the read compose |
| LineReader.ReadLine | WRM/WRM.Core/Tools/StreamLineReader.cs:7-24 | the loop returns null at the end of the stream, or the ASCII text of the kept bytes, leaving the stream just past the line feed |
| LineReader.ReadLineAt | WRM/WRM.Core/Tools/StreamLineReader.cs:7-24 | the same, stated by the position the line is read at |
| Http1ParsingStep.RequestHeadUsed | WRM.HTTP.HTTP1/Steps/Http1ParsingStep.cs:209-270 | a request head read consumes at least one byte and no more than the input holds |
| Http1ParsingStep.ReadRequestLine | WRM.HTTP.HTTP1/Steps/Http1ParsingStep.cs:216-218 | reads the request line: the end of the stream closes the connection, otherwise the head is what the line and the header loop after it make of it |
| Http1ParsingStep.RequestHeadRead | WRM.HTTP.HTTP1/Steps/Http1ParsingStep.cs:216-233 | where the request line was read, the head is what that line and the header loop after it make of it |
| Http1ParsingStep.ReadRequestAsync | WRM.HTTP.HTTP1/Steps/Http1ParsingStep.cs:209-276 | the head read is RequestHead at the stream's position, and a request leaves the stream just after its head |
| Http1ParsingStep.RequestHeadRoundTrip | WRM.HTTP.HTTP1/Steps/Http1ParsingStep.cs:209-270 | a request head written from a request line and well-formed headers within 8192 bytes is read back as that line and those headers, consuming exactly the head |
| Http1ParsingStep.HeadLines | WRM.HTTP.HTTP1/Steps/Http1ParsingStep.cs:216-255 | a written head is its request line followed by its header section, each read back |
| Http1ParsingStep.RequestHeadKnown | WRM.HTTP.HTTP1/Steps/Http1ParsingStep.cs:216-261 | a request line that parses and a header loop that ends give the request |
| Http1ParsingStep.RequestHeadLine | WRM.HTTP.HTTP1/Steps/Http1ParsingStep.cs:216-233 | at a position where a line is read, the head is what that line and the header loop after it make of it |
| Http1ParsingStep.RequestLineTaken | WRM.HTTP.HTTP1/Steps/Http1ParsingStep.cs:217-230 | a request line that is not blank and parses gives the request the header loop finishes |
| Http1ParsingStep.HeadBytes | WRM.HTTP.HTTP1/Steps/Http1ParsingStep.cs:291-358 | the bytes of a head are its first line's, then its header section's |
| Http1ParsingStep.MalformedRequest | WRM.HTTP.HTTP1/Steps/Http1ParsingStep.cs:217-223 | a request line that is not blank and has fewer than two spaces is malformed, whatever follows it |
| Http1ParsingStep.ResponseHeaderValues | WRM.HTTP.HTTP1/Steps/Http1ParsingStep.cs:294-355 | in the written head, Content-Length, Connection, Date and Server are the handler's own when it set them; otherwise Content-Length is 0 without a body, the length of a seekable body and absent for one that cannot seek, Connection is keep-alive or close, Date is the given date and Server is WRM/1.0 |
| Http1ParsingStep.AddedValue | WRM.HTTP.HTTP1/Steps/Http1ParsingStep.cs:313-355 | a lookup in the added headers finds the first of the four added parts that has the name |
| Http1ParsingStep.LengthValues | WRM.HTTP.HTTP1/Steps/Http1ParsingStep.cs:313-331 | the added Content-Length is 0 without a body, the length of a seekable body, and absent when the handler set one or the body cannot seek |
| Http1ParsingStep.ConnectionValues | WRM.HTTP.HTTP1/Steps/Http1ParsingStep.cs:333-343 | the added Connection is keep-alive or close as the connection goes on, and absent when the handler set one |
| Http1ParsingStep.DateValues | WRM.HTTP.HTTP1/Steps/Http1ParsingStep.cs:345-349 | the added Date is the given date unless the handler set one |
| Http1ParsingStep.ServerValues | WRM.HTTP.HTTP1/Steps/Http1ParsingStep.cs:351-355 | the added Server is WRM/1.0 unless the handler set one |
| Http1ParsingStep.WriteHandlerHeaders | WRM.HTTP.HTTP1/Steps/Http1ParsingStep.cs:294-311 | writes the handler's headers in order and records which of Content-Length, Connection, Date and Server it set, ignoring case |
| Http1ParsingStep.WriteResponseAsync | WRM.HTTP.HTTP1/Steps/Http1ParsingStep.cs:281-373 | writes the head, then the body when it can seek; a body that cannot seek fails after the head |
| Http1ParsingStep.WriteHead | WRM.HTTP.HTTP1/Steps/Http1ParsingStep.cs:288-358 | the head built is ResponseHead: the status line, the handler's headers, the added headers and the empty line |
| Http1ParsingStep.BodyDrain | WRM.HTTP.HTTP1/Steps/Http1ParsingStep.cs:192-204 | a drain takes no more bytes than there are; a Content-Length body never fails and takes nothing when no length is left |
| Http1ParsingStep.ConsumeRead | WRM.HTTP.HTTP1/Steps/Http1ParsingStep.cs:202 | one read of the drain takes what Undrained says, step by step |
| Http1ParsingStep.ConsumeRequestBody | WRM.HTTP.HTTP1/Steps/Http1ParsingStep.cs:192-204 | a disposed body reads nothing; otherwise the drain moves the stream past exactly what is left of the body and fails as BodyDrain says |
| Http1ParsingStep.EncodedBodyDrained | WRM.HTTP.HTTP1/Steps/Http1ParsingStep.cs:192-204 | the drain of a chunked body takes exactly its encoding and does not fail |
| Http1ParsingStep.SendErrorResponse | WRM.HTTP.HTTP1/Steps/Http1ParsingStep.cs:378-408 | writes ErrorResponse: the head and the page |
| Http1ParsingStep.ErrorResponseFramed | WRM.HTTP.HTTP1/Steps/Http1ParsingStep.cs:384-401 | the error response is an HTTP/1.1 head whose Content-Length is the page's octet count and whose Connection is close, followed by the page |
| Http1ParsingStep.Before | WRM.HTTP.HTTP1/Steps/Http1ParsingStep.cs:36-172 | output and request counts of two stretches of the loop add up, and the last request is the later stretch's when it has one |
| Http1ParsingStep.ServeIs | WRM.HTTP.HTTP1/Steps/Http1ParsingStep.cs:52-57 | the loop reads the head at its position and goes on from it |
| Http1ParsingStep.ServeHead | WRM.HTTP.HTTP1/Steps/Http1ParsingStep.cs:59-108 | after a request, the loop goes on after its head and its drained body with the answer of the next step |
| Http1ParsingStep.ContinueIs | WRM.HTTP.HTTP1/Steps/Http1ParsingStep.cs:36-172 | the loop goes on after an answer that keeps the connection, and otherwise ends with that request |
| Http1ParsingStep.DrainBody | WRM.HTTP.HTTP1/Steps/Http1ParsingStep.cs:78-90 | moves the stream as BodyDrain says and reports whether the drain failed |
| Http1ParsingStep.Respond | WRM.HTTP.HTTP1/Steps/Http1ParsingStep.cs:96-156 | writes what Answer says for the next step's reply: the response it left (the 500 one when it left none), or, when it threw, what the catch clause for that kind of exception sends; reports whether the loop goes on |
| Http1ParsingStep.Caught | WRM.HTTP.HTTP1/Steps/Http1ParsingStep.cs:108-156 | a timeout after a request was read and an IOException write nothing, an InvalidDataException the 400 page, and any other exception the 500 page |
| Http1ParsingStep.Catch | WRM.HTTP.HTTP1/Steps/Http1ParsingStep.cs:108-156 | writes exactly what Caught says for the kind of exception, and nothing else |
| Http1ParsingStep.SendInternalError | WRM.HTTP.HTTP1/Steps/Http1ParsingStep.cs:138-156 | writes the 500 page |
| Http1ParsingStep.WriteAnswer | WRM.HTTP.HTTP1/Steps/Http1ParsingStep.cs:98-108 | writes what Written says for the response and reports whether the loop goes on |
| Http1ParsingStep.ReadHead | WRM.HTTP.HTTP1/Steps/Http1ParsingStep.cs:52-57 | reads the head; the loop from the old position is the loop after that head |
| Http1ParsingStep.HandleRequest | WRM.HTTP.HTTP1/Steps/Http1ParsingStep.cs:59-108 | drains the body, stores the request under "HTTP_CONTEXT", runs the next step and writes the answer, with keep-alive from the version and Connection header and off when the drain failed |
| Http1ParsingStep.Refuse | WRM.HTTP.HTTP1/Steps/Http1ParsingStep.cs:52-137 | a head that is not a request writes what Refused says and ends the loop |
| Http1ParsingStep.ServeRequest | WRM.HTTP.HTTP1/Steps/Http1ParsingStep.cs:36-172 | one turn of the loop writes its part of Serve and either goes on with the rest of Serve or ends it |
| Http1ParsingStep.AnswerHead | WRM.HTTP.HTTP1/Steps/Http1ParsingStep.cs:59-108 | a request whose head was read is drained, stored and answered, and the loop continues as Continue says |
| Http1ParsingStep.BeforeBefore | WRM.HTTP.HTTP1/Steps/Http1ParsingStep.cs:36-172 | two stretches of the loop compose |
| Http1ParsingStep.BeforeServed | WRM.HTTP.HTTP1/Steps/Http1ParsingStep.cs:36-172 | a stretch of the loop followed by its last turn composes |
| Http1ParsingStep.StoredStored | WRM.HTTP.HTTP1/Steps/Http1ParsingStep.cs:93 | storing under "HTTP_CONTEXT" twice keeps the later |
| Http1ParsingStep.InvokeAsync | WRM.HTTP.HTTP1/Steps/Http1ParsingStep.cs:18-187 | without HTTP/1 detected, next runs once and nothing changes; otherwise the output, the number of next calls and the stored request are those of Serve on what is left of the connection's stream, which after a detection step is everything the peer sent (FrontEnd.DetectThenServe) |
| Http1ParsingStep.SeekableWritten | WRM.HTTP.HTTP1/Steps/Http1ParsingStep.cs:360-372 | a body that can seek is written whole after the head, and the loop goes on exactly when the connection is kept alive |
| Http1ParsingStep.MalformedAnswered | WRM.HTTP.HTTP1/Steps/Http1ParsingStep.cs:131-223 | a request line that does not split into three parts is answered with the 400 page and nothing else happens |
| Http1ParsingStep.NextRequestAfterBody | WRM.HTTP.HTTP1/Steps/Http1ParsingStep.cs:78-108 | a keep-alive request with a chunked body is answered, its body drained, and the loop reads the next request right after the body |
| Http1ParsingStep.ClosingRequest | WRM.HTTP.HTTP1/Steps/Http1ParsingStep.cs:62-108 | a request with Connection: close is answered once and the loop ends |
| Http1ParsingStep.ThrowingHandlerEnds | WRM.HTTP.HTTP1/Steps/Http1ParsingStep.cs:92-156 | a request whose next step throws ends the loop, keep-alive or not, with only what the catch clause for that kind of exception sends after the request: nothing for an IOException or a timeout, the 400 page for an InvalidDataException, the 500 page otherwise |
| Http1ParsingStep.UnseekableBodyLost | WRM.HTTP.HTTP1/Steps/Http1ParsingStep.cs:313-372 | as written, a body that cannot seek is replaced by the 500 page after the head, and the connection ends |
| Http1ParsingStep.WrittenFixedDelivers | WRM.HTTP.HTTP1/Steps/Http1ParsingStep.cs:313-372 | the corrected writer puts every body after the head, agrees with the one as written on bodies that can seek, and ends the loop exactly when the head says Connection: close |
| CoreHttp1ParsingStep.HeaderLoop | WRM.Core/Plugins/Http/Steps/Http1ParsingStep.cs:38-51 | the header loop reads forward only and stops within the input |
| CoreHttp1ParsingStep.LineStored | WRM.Core/Plugins/Http/Steps/Http1ParsingStep.cs:40-50 | after a line the loop reads forward only and stops within the input |
| CoreHttp1ParsingStep.RequestAt | WRM.Core/Plugins/Http/Steps/Http1ParsingStep.cs:21-56 | the step stops within the input, and a request it hands on took at least one byte |
| CoreHttp1ParsingStep.ReadHeaders | WRM.Core/Plugins/Http/Steps/Http1ParsingStep.cs:38-51 | the loop over the line reader ends with the dictionary and the position HeaderLoop gives |
| CoreHttp1ParsingStep.InvokeAsync | WRM.Core/Plugins/Http/Steps/Http1ParsingStep.cs:10-59 | without HTTP/1 detected under "protocol", next runs once and nothing changes; otherwise the stream stops where RequestAt says, read from what is left of the connection's stream, which after a detection step is everything the peer sent (FrontEnd.DetectThenParse), and next runs once with the request stored under "http" exactly when RequestAt hands one on |
| CoreHttp1ParsingStep.FindIgnoresCase | WRM.Core/Plugins/Http/Steps/Http1ParsingStep.cs:50 | the headers dictionary finds names up to case |
| CoreHttp1ParsingStep.SetGetIgnoringCase | WRM.Core/Plugins/Http/Steps/Http1ParsingStep.cs:50 | after `Headers[name] = value`, every spelling of the name reads back that value |
| CoreHttp1ParsingStep.LastValueWins | WRM.Core/Plugins/Http/Steps/Http1ParsingStep.cs:38-51 | after the loop stores a run of headers, each name reads back the value of its last header, or what was there before when none has it |
| CoreHttp1ParsingStep.StoreAllDistinct | WRM.Core/Plugins/Http/Steps/Http1ParsingStep.cs:50 | storing headers keeps the dictionary's names distinct ignoring case |
| CoreHttp1ParsingStep.HeaderLoopLine | WRM.Core/Plugins/Http/Steps/Http1ParsingStep.cs:40-50 | at a position where a line is read, the loop goes on with that line |
| CoreHttp1ParsingStep.LineKept | WRM.Core/Plugins/Http/Steps/Http1ParsingStep.cs:44-50 | a well-formed header's line is stored and the loop goes on after it |
| CoreHttp1ParsingStep.HeaderLoopKeeps | WRM.Core/Plugins/Http/Steps/Http1ParsingStep.cs:40-50 | the same, at any position of the input |
| CoreHttp1ParsingStep.SectionStored | WRM.Core/Plugins/Http/Steps/Http1ParsingStep.cs:38-51 | storing a section's first header, then the rest, is storing the section |
| CoreHttp1ParsingStep.LineIn | WRM.Core/Streams/Tools/LineReader.cs:14-32 | a line written at a position is read back there as its text |
| CoreHttp1ParsingStep.SectionIn | WRM.Core/Plugins/Http/Steps/Http1ParsingStep.cs:38-51 | a written section is its first header's line, then the section of the others |
| CoreHttp1ParsingStep.Halves | WRM.Core/Plugins/Http/Steps/Http1ParsingStep.cs:38-51 | bytes written one after the other are found one after the other |
| CoreHttp1ParsingStep.HeaderLoopRoundTrip | WRM.Core/Plugins/Http/Steps/Http1ParsingStep.cs:38-51 | a section written from well-formed headers is read back as those headers stored in order, consuming exactly the section |
| CoreHttp1ParsingStep.SectionEnds | WRM.Core/Plugins/Http/Steps/Http1ParsingStep.cs:41-42 | an empty section is its empty line, which ends the loop |
| CoreHttp1ParsingStep.FirstLine | WRM.Core/Plugins/Http/Steps/Http1ParsingStep.cs:40-50 | a written section's first line is its first header's, and the rest of the section follows |
| CoreHttp1ParsingStep.RequestRoundTrip | WRM.Core/Plugins/Http/Steps/Http1ParsingStep.cs:21-56 | a head written from a request line and well-formed headers is handed on as that request with those headers stored in order, consuming exactly the head |
| CoreHttp1ParsingStep.RequestAtKnown | WRM.Core/Plugins/Http/Steps/Http1ParsingStep.cs:23-56 | a request line that parses gives the request the header loop after it finishes |
| CoreHttp1ParsingStep.NoRequestLine | WRM.Core/Plugins/Http/Steps/Http1ParsingStep.cs:23-29 | a blank request line, or one with fewer than three parts, hands nothing on, consuming just that line |
| ParseHttp1Step.CoreHeadUsed | WRM/WRM.Core/Plugins/Http/Http1/Steps/ParseHttp1Step.cs:43-74 | a request head read consumes at least one byte and no more than the input holds |
| ParseHttp1Step.ReadCoreHead | WRM/WRM.Core/Plugins/Http/Http1/Steps/ParseHttp1Step.cs:43-74 | the head read with the line reader and the header loop is CoreHead at the stream's position, and a request leaves the stream just after its head |
| ParseHttp1Step.Turn | WRM/WRM.Core/Plugins/Http/Http1/Steps/ParseHttp1Step.cs:89-91 | the turn fails exactly when the next step throws, and the loop can go on only when it could before |
| ParseHttp1Step.RunNext | WRM/WRM.Core/Plugins/Http/Http1/Steps/ParseHttp1Step.cs:89 | the next step acts on the context: it writes and sets the context's keep-alive flag as Turn says |
| ParseHttp1Step.Then | WRM/WRM.Core/Plugins/Http/Http1/Steps/ParseHttp1Step.cs:33-94 | output and next-step counts of two stretches of the loop add up, and the failure is the later stretch's |
| ParseHttp1Step.ServeCoreIs | WRM/WRM.Core/Plugins/Http/Http1/Steps/ParseHttp1Step.cs:43-74 | the loop reads the head at its position and goes on from it |
| ParseHttp1Step.CoreServeHead | WRM/WRM.Core/Plugins/Http/Http1/Steps/ParseHttp1Step.cs:76-93 | after a request, an exception from the next step ends the loop; otherwise the loop goes on after the head and the drained body when both the request and the context keep the connection alive |
| ParseHttp1Step.CoreContinueIs | WRM/WRM.Core/Plugins/Http/Http1/Steps/ParseHttp1Step.cs:33-94 | the loop goes on after a turn that keeps the connection, and otherwise ends with that request |
| ParseHttp1Step.ThenThen | WRM/WRM.Core/Plugins/Http/Http1/Steps/ParseHttp1Step.cs:33-94 | two stretches of the loop compose |
| ParseHttp1Step.AnswerCoreHead | WRM/WRM.Core/Plugins/Http/Http1/Steps/ParseHttp1Step.cs:76-93 | a request whose head was read is stored under the HttpContext key as a fresh context, handed to the next step and its body disposed, and the loop continues as CoreContinue says or ends when the next step throws |
| ParseHttp1Step.DisposeBody | WRM/WRM.Core/Plugins/Http/Http1/Steps/ParseHttp1Step.cs:93 | disposing a body nothing read drains it as BodyDrain says |
| ParseHttp1Step.ServeCoreRequest | WRM/WRM.Core/Plugins/Http/Http1/Steps/ParseHttp1Step.cs:33-94 | one turn of the loop writes its part of ServeCore and either goes on with the rest of ServeCore or ends it |
| ParseHttp1Step.HandedHanded | WRM/WRM.Core/Plugins/Http/Http1/Steps/ParseHttp1Step.cs:87 | storing under the HttpContext key twice keeps the later |
| ParseHttp1Step.InvokeAsync | WRM/WRM.Core/Plugins/Http/Http1/Steps/ParseHttp1Step.cs:17-96 | without HTTP/1 detected or without a stream under the TCP stream key, next runs once and nothing changes; otherwise, on the stored stream or the stream a peek stream stored by the detection step reads as, the output, the number of next calls and whether an exception escapes are ServeCore's, and the last context handed on is stored (FrontEnd.SniffThenServe) |
| ParseHttp1Step.ServeConnection | WRM/WRM.Core/Plugins/Http/Http1/Steps/ParseHttp1Step.cs:28-94 | the loop on the stream ends as ServeCore says, with the last context it handed on stored |
| ParseHttp1Step.CoreHeadRoundTrip | WRM/WRM.Core/Plugins/Http/Http1/Steps/ParseHttp1Step.cs:43-74 | a head written from a request line within 8192 characters and well-formed headers within 8192 bytes is read back as that line and those headers, consuming exactly the head |
| ParseHttp1Step.BlankLineEnds | WRM/WRM.Core/Plugins/Http/Http1/Steps/ParseHttp1Step.cs:45 | a blank request line ends the loop: nothing written, the next step never called |
| ParseHttp1Step.OverlongLineFails | WRM/WRM.Core/Plugins/Http/Http1/Steps/ParseHttp1Step.cs:47-52 | a request line longer than 8192 characters that splits into three parts throws before the next step is called |
| ParseHttp1Step.ClosingRequestServedOnce | WRM/WRM.Core/Plugins/Http/Http1/Steps/ParseHttp1Step.cs:76-94 | a request that ends keep-alive is answered once and the loop ends |
| ParseHttp1Step.KeepAliveRequestContinues | WRM/WRM.Core/Plugins/Http/Http1/Steps/ParseHttp1Step.cs:76-94 | a keep-alive request without a body, answered with a response whose length is known, is answered and the loop reads the next request right after its head |
| ParseHttp1Step.AnsweredHeadContinues | WRM/WRM.Core/Plugins/Http/Http1/Steps/ParseHttp1Step.cs:76-94 | the same for the head read at the start of the input |
| ParseHttp1Step.CoreServeGoesOn | WRM/WRM.Core/Plugins/Http/Http1/Steps/ParseHttp1Step.cs:76-93 | after a turn that did not throw, the loop goes on at the position after the body with the bytes and the flag the turn gave |
| ParseHttp1Step.AfterTurnIs | WRM/WRM.Core/Plugins/Http/Http1/Steps/ParseHttp1Step.cs:76-93 | the loop after a head is its turn's outcome |
| ParseHttp1Step.AfterTurnGoesOn | WRM/WRM.Core/Plugins/Http/Http1/Steps/ParseHttp1Step.cs:76-93 | a turn that did not throw continues after the drained body |
| ParseHttp1Step.AnsweredTurn | WRM/WRM.Core/Plugins/Http/Http1/Abstraction/Http1Context.cs:62-126 | a response whose length is known is written, keeps keep-alive and does not throw |
| ParseHttp1Step.NothingDrained | WRM/WRM.Core/Plugins/Http/Http1/Steps/ParseHttp1Step.cs:76-93 | without Transfer-Encoding and Content-Length, the body drain takes nothing |
| ParseHttp1Step.StaleKeepAliveAnnounced | WRM/WRM.Core/Plugins/Http/Http1/Steps/ParseHttp1Step.cs:78-91 | as written, a request that ends keep-alive is answered with "Connection: keep-alive", because the context is built with the loop's flag before the request's own decision, while the loop stops after it |
| ParseHttp1Step.FixedAnnouncesLoop | WRM/WRM.Core/Plugins/Http/Http1/Steps/ParseHttp1Step.cs:78-91 | with the request's own decision passed to the context, the Connection header written says keep-alive exactly when the loop goes on |
| Http1Context.ReasonPhrase | WRM/WRM.Core/Plugins/Http/Http1/Abstraction/Http1Context.cs:136-209 | the phrase is non-empty exactly for the status codes the table knows |
| Http1Context.Reason | WRM/WRM.Core/Plugins/Http/Http1/Abstraction/Http1Context.cs:15-17 | the status line carries the response's own reason unless it is null or blank, and otherwise a non-empty phrase exactly for a known status |
| Http1Context.Http1Context.constructor | WRM/WRM.Core/Plugins/Http/Http1/Abstraction/Http1Context.cs:6-8 | the context starts with the keep-alive flag and timeout it is given, over the connection and the request |
| Http1Context.Http1Context.WriteResponse | WRM/WRM.Core/Plugins/Http/Http1/Abstraction/Http1Context.cs:10-95 | writes ResponseBytes: the status line, the handler's headers, the added framing, Connection, Date and Server, the empty line, then the body unless the request is a HEAD; KeepAlive turns false exactly for a body of unknown length the handler did not frame |
| Http1Context.Http1Context.MakeTunel | WRM/WRM.Core/Plugins/Http/Http1/Abstraction/Http1Context.cs:97-133 | writes the tunnel head, hands back the connection as both streams and turns KeepAlive off |
| Http1Context.AddedLines | WRM/WRM.Core/Plugins/Http/Http1/Abstraction/Http1Context.cs:46-82 | the headers added after the handler's make up ResponseLines, and KeepAlive after them is StillAlive |
| Http1Context.Framing | WRM/WRM.Core/Plugins/Http/Http1/Abstraction/Http1Context.cs:46-60 | the Content-Length added is LengthLine, and KeepAlive after it is StillAlive |
| Http1Context.Send | WRM/WRM.Core/Plugins/Http/Http1/Abstraction/Http1Context.cs:86-91 | writes the head, then the body unless the request is a HEAD |
| Http1Context.ScanHeaders | WRM/WRM.Core/Plugins/Http/Http1/Abstraction/Http1Context.cs:22-42 | writes the handler's headers in order and records which of Content-Length, Connection, Date, Server and Transfer-Encoding it set, ignoring case |
| Http1Context.StandardReasons | WRM/WRM.Core/Plugins/Http/Http1/Abstraction/Http1Context.cs:146-196 | 200, 400, 408 and 500 map to OK, Bad Request, Request Timeout and Internal Server Error |
| Http1Context.WrittenFraming | WRM/WRM.Core/Plugins/Http/Http1/Abstraction/Http1Context.cs:28-72 | in the written head, Content-Length is the handler's, absent when it set Transfer-Encoding, and otherwise 0 without a body, the length of a seekable body, or absent; Connection is the handler's or keep-alive exactly when the connection stays alive, and close otherwise |
| Http1Context.LengthAnnounced | WRM/WRM.Core/Plugins/Http/Http1/Abstraction/Http1Context.cs:46-91 | for a response the handler did not frame with a body of known length, the bytes after the head are the body and Content-Length announces its length |
| Http1Context.TunnelHeaders | WRM/WRM.Core/Plugins/Http/Http1/Abstraction/Http1Context.cs:105-124 | the tunnel head carries the handler's Date and Server or the context's, and no framing or Connection header of its own |
| Http1Context.LengthLookup | WRM/WRM.Core/Plugins/Http/Http1/Abstraction/Http1Context.cs:46-60 | the added Content-Length is 0 without a body, the length of a seekable body, and absent when the handler framed the body or the body cannot seek |
| Http1Context.ConnectionLookup | WRM/WRM.Core/Plugins/Http/Http1/Abstraction/Http1Context.cs:62-72 | the added Connection is keep-alive or close as the connection stays alive, and absent when the handler set one |
| Http1Context.ServedLookup | WRM/WRM.Core/Plugins/Http/Http1/Abstraction/Http1Context.cs:74-82 | the added Date and Server are the context's unless the handler set them |
| HttpMessage.Find | WRM.Core/Plugins/Http/Classes/HttpRequest.cs:10 | the position found holds a key equal to the name ignoring case, and no earlier key matches; -1 exactly when none matches |
| HttpMessage.Get | WRM.Core/Plugins/Http/Classes/HttpRequest.cs:10 | a lookup finds nothing exactly when no key matches the name ignoring case |
| HttpMessage.Set | WRM.Core/Plugins/Http/Classes/HttpRequest.cs:10 | the indexer keeps the size when the key is present and appends the pair otherwise |
| HttpMessage.Keys | WRM.Core/Plugins/Http/Classes/HttpRequest.cs:10 | the keys, one per entry, in order |
| HttpMessage.FindKeys | WRM.Core/Plugins/Http/Classes/HttpRequest.cs:10 | a lookup's position depends only on the keys |
| HttpMessage.SetGet | WRM.Core/Plugins/Http/Classes/HttpRequest.cs:10 | after `d[name] = value` the name reads back the value |
| HttpMessage.SetOther | WRM.Core/Plugins/Http/Classes/HttpRequest.cs:10 | after `d[name] = value` every other name reads back what it did before |
| HttpMessage.SetDistinct | WRM.Core/Plugins/Http/Classes/HttpRequest.cs:10 | the indexer keeps the keys distinct ignoring case, keeps the first spelling of a key present, and appends a new key |
| HttpMessage.CopyDistinct | WRM.Core/Plugins/Http2/Steps/Http2FrameDispatchStep.cs:191-194 | copying a dictionary with distinct keys entry by entry into an empty one rebuilds it |
| RequestHeaders.CookiePair | WRM/WRM.Core/Plugins/Http/Abstraction/HttpRequestHeaders.cs:41-42 | a piece splits at its first separator (':' in the source) into a name without it and the rest, and the split fails exactly when there is no separator |
| RequestHeaders.CookiesOf | WRM/WRM.Core/Plugins/Http/Abstraction/HttpRequestHeaders.cs:39-43 | splitting the pieces succeeds exactly when every piece has the separator, and then gives each piece's pair in order |
| RequestHeaders.LastExact | WRM/WRM.Core/Plugins/Http/Abstraction/HttpRequestHeaders.cs:24-37 | a property is null exactly when no header was added under exactly its name, and otherwise holds a value added under it |
| RequestHeaders.HttpRequestHeaders.constructor | WRM/WRM.Core/Plugins/Http/Abstraction/HttpRequestHeaders.cs:8-15 | no headers, no cookies and every property null |
| RequestHeaders.HttpRequestHeaders.Add | WRM/WRM.Core/Plugins/Http/Abstraction/HttpRequestHeaders.cs:22-48 | Host, Content-Length, Transfer-Encoding and Connection take the value of a header added under exactly their name; a Cookie header adds its cookies, and fails with an index error, without adding the header, when a piece has no ':' |
| RequestHeaders.HttpRequestHeaders.Clear | WRM/WRM.Core/Plugins/Http/Abstraction/HttpRequestHeaders.cs:50 | throws NotSupportedException |
| RequestHeaders.HttpRequestHeaders.Contains | WRM/WRM.Core/Plugins/Http/Abstraction/HttpRequestHeaders.cs:52 | throws NotSupportedException |
| RequestHeaders.HttpRequestHeaders.CopyTo | WRM/WRM.Core/Plugins/Http/Abstraction/HttpRequestHeaders.cs:54 | throws NotSupportedException |
| RequestHeaders.HttpRequestHeaders.Remove | WRM/WRM.Core/Plugins/Http/Abstraction/HttpRequestHeaders.cs:56 | throws NotSupportedException |
| RequestHeaders.LastExactAppend | WRM/WRM.Core/Plugins/Http/Abstraction/HttpRequestHeaders.cs:22-48 | appending a header changes the property of its own name only, and adds cookies only for a Cookie header |
| RequestHeaders.CookiePairOf | WRM/WRM.Core/Plugins/Http/Abstraction/HttpRequestHeaders.cs:41-42 | a piece of a name without the separator, the separator and a value splits back into that name and value |
| RequestHeaders.JoinedCookies | WRM/WRM.Core/Plugins/Http/Abstraction/HttpRequestHeaders.cs:39-43 | pieces of name, separator and value joined by ';' split back into those pairs, in order |
| RequestHeaders.ColonCookies | WRM/WRM.Core/Plugins/Http/Abstraction/HttpRequestHeaders.cs:39-43 | a Cookie value of `name:value` pieces joined by ';' gives back those pairs |
| RequestHeaders.EqualsCookieRejected | WRM/WRM.Core/Plugins/Http/Abstraction/HttpRequestHeaders.cs:39-43 | a cookie written the usual way, `name=value`, makes Add throw |
| RequestHeaders.EqualsCookies | WRM/WRM.Core/Plugins/Http/Abstraction/HttpRequestHeaders.cs:39-43 | corrected: with pieces split at '=', a Cookie value of `name=value` pairs joined by ';' gives back those pairs, in order |
| HttpRequestBody.Chars | WRM.HTTP.HTTP1/Streams/HttpRequestBodyStream.cs:217 | one character per byte, each the byte's code |
| HttpRequestBody.BodyLine | WRM.HTTP.HTTP1/Streams/HttpRequestBodyStream.cs:204-241 | the line reader consumes no more than is left, and the line holds no more characters than the bytes consumed (plus a held-back CR) |
| HttpRequestBody.BodyLineStep | WRM.HTTP.HTTP1/Streams/HttpRequestBodyStream.cs:210-238 | one byte read: a CR is held back, a LF ends the line, and any other byte follows the held-back CR if there is one |
| HttpRequestBody.BodyLineOf | WRM.HTTP.HTTP1/Streams/HttpRequestBodyStream.cs:204-241 | a line of ordinary bytes ended by CR LF is read as exactly those bytes, consuming the CR LF |
| HttpRequestBody.BodyLineAtEnd | WRM.HTTP.HTTP1/Streams/HttpRequestBodyStream.cs:214-240 | at the end of the stream the partial line is returned, never null |
| HttpRequestBody.OrdinaryBytes | WRM.HTTP.HTTP1/Streams/HttpRequestBodyStream.cs:237 | bytes that are neither CR nor LF are taken into the line as they are |
| HttpRequestBody.LoneCarriageReturnKept | WRM.HTTP.HTTP1/Streams/HttpRequestBodyStream.cs:219-237 | a CR that is not followed by LF is kept in the line, and only the CR LF at the end is dropped |
| HttpRequestBody.CarriageReturnThen | WRM.HTTP.HTTP1/Streams/HttpRequestBodyStream.cs:219-237 | a CR followed by ordinary bytes and then CR LF yields a line that keeps that CR, and consumes the bytes up to and including the CR LF |
| HttpRequestBody.Trailers | WRM.HTTP.HTTP1/Streams/HttpRequestBodyStream.cs:246-258 | the trailer section consumes no more than is left |
| HttpRequestBody.NextPiece | WRM.HTTP.HTTP1/Streams/HttpRequestBodyStream.cs:153-195 | one turn of the chunk loop consumes no more than is left; data it reads fits the room and comes with at least as many bytes consumed |
| HttpRequestBody.ChunkTake | WRM.HTTP.HTTP1/Streams/HttpRequestBodyStream.cs:181-192 | a turn takes no more data than the room and than a positive chunk size |
| HttpRequestBody.SizedPiece | WRM.HTTP.HTTP1/Streams/HttpRequestBodyStream.cs:171-195 | after a parsed size line the turn consumes no more than is left and its data fits the room |
| HttpRequestBody.DataPiece | WRM.HTTP.HTTP1/Streams/HttpRequestBodyStream.cs:180-195 | the turn's data is the k bytes after the size line, followed by one more line read |
| HttpRequestBody.ReadChunks | WRM.HTTP.HTTP1/Streams/HttpRequestBodyStream.cs:143-199 | a chunked read consumes no more than is left, and the data it returns fits the room and the bytes consumed |
| HttpRequestBody.ChunkTurns | WRM.HTTP.HTTP1/Streams/HttpRequestBodyStream.cs:150-196 | the turns of a read that still has room consume no more than is left, and their data fits the room |
| HttpRequestBody.ChunkDrain | WRM.HTTP.HTTP1/Streams/HttpRequestBodyStream.cs:263-272 | the drain of the chunks consumes no more than is left |
| HttpRequestBody.DrainAfter | WRM.HTTP.HTTP1/Streams/HttpRequestBodyStream.cs:266-271 | the drain after its first read consumes no more than is left |
| HttpRequestBody.DrainTurn | WRM.HTTP.HTTP1/Streams/HttpRequestBodyStream.cs:266-271 | a drain read that fails, returns nothing or ends the body ends the drain; otherwise the drain goes on after the bytes it consumed |
| HttpRequestBody.DrainTurnFails | WRM.HTTP.HTTP1/Streams/HttpRequestBodyStream.cs:263-272 | the drain fails exactly where a read throws |
| HttpRequestBody.SizeLine | WRM.HTTP.HTTP1/Streams/HttpRequestBodyStream.cs:163-165 | a chunk size written in hexadecimal holds no line break and reads back as its digits |
| HttpRequestBody.ChunkSizeOf | WRM.HTTP.HTTP1/Streams/HttpRequestBodyStream.cs:163-165 | the hexadecimal size line of a chunk parses to its length |
| HttpRequestBody.EncodedToData | WRM.HTTP.HTTP1/Streams/HttpRequestBodyStream.cs:180-192 | a size line with a positive size leads to reading min(size, room) data bytes |
| HttpRequestBody.DataOfEncoded | WRM.HTTP.HTTP1/Streams/HttpRequestBodyStream.cs:180-195 | the data bytes read are the chunk's first j, followed by one more line |
| HttpRequestBody.PieceOfEncoded | WRM.HTTP.HTTP1/Streams/HttpRequestBodyStream.cs:153-195 | one turn over a chunk whose size line gives its length reads its first min(length, room) bytes, then one line |
| HttpRequestBody.SizeLineOf | WRM.HTTP.HTTP1/Streams/HttpRequestBodyStream.cs:163-165 | a sender's size line holds no line break and parses to the chunk's length |
| HttpRequestBody.PieceOfEncodedChunk | WRM.HTTP.HTTP1/Streams/HttpRequestBodyStream.cs:153-195 | a turn over a chunk that fits the room reads all of it and consumes its encoding exactly |
| HttpRequestBody.SizedPieceZero | WRM.HTTP.HTTP1/Streams/HttpRequestBodyStream.cs:171-177 | a size of zero ends the body behind the trailer section |
| HttpRequestBody.TrailersEnd | WRM.HTTP.HTTP1/Streams/HttpRequestBodyStream.cs:250-253 | an empty line right away ends the trailer section after its CR LF |
| HttpRequestBody.LastOfEncoded | WRM.HTTP.HTTP1/Streams/HttpRequestBodyStream.cs:171-177 | a size line reading 0 followed by the empty line ends the body, consuming both |
| HttpRequestBody.LastChunk | WRM.HTTP.HTTP1/Streams/HttpRequestBodyStream.cs:171-177 | the last chunk "0" and an empty trailer section end the body after five bytes |
| HttpRequestBody.ReadChunksLast | WRM.HTTP.HTTP1/Streams/HttpRequestBodyStream.cs:171-177 | a turn that ends the body ends the read |
| HttpRequestBody.ReadChunksBroken | WRM.HTTP.HTTP1/Streams/HttpRequestBodyStream.cs:165-188 | a turn that throws fails the read |
| HttpRequestBody.ReadChunksUnfoldLeft | WRM.HTTP.HTTP1/Streams/HttpRequestBodyStream.cs:150-196 | a turn that reads data is followed by a read of what comes after it with the room that is left |
| HttpRequestBody.ReadOneEncoded | WRM.HTTP.HTTP1/Streams/HttpRequestBodyStream.cs:150-196 | a chunk that fits the room is read whole and the read goes on after its encoding |
| HttpRequestBody.ReadOneChunk | WRM.HTTP.HTTP1/Streams/HttpRequestBodyStream.cs:150-196 | the same for a chunk as a sender encodes it |
| HttpRequestBody.ChunkedRoundTrip | WRM.HTTP.HTTP1/Streams/HttpRequestBodyStream.cs:143-199 | a body of non-empty chunks, encoded as a sender writes it and smaller than the room, is read as the chunks' concatenation, consuming its encoding exactly and ending the body |
| HttpRequestBody.RoundTripCons | WRM.HTTP.HTTP1/Streams/HttpRequestBodyStream.cs:143-199 | the round trip of a body from the round trip of its chunks after the first |
| HttpRequestBody.ReadCons | WRM.HTTP.HTTP1/Streams/HttpRequestBodyStream.cs:150-196 | a chunk that fits followed by an encoding the rest of the room reads to its end is read as the chunk then that data |
| HttpRequestBody.ChunkTailLost | WRM.HTTP.HTTP1/Streams/HttpRequestBodyStream.cs:180-195 | as written, a chunk longer than the room is cut at the room and its tail swallowed by the line read meant for its CR LF, while the body goes on |
| HttpRequestBody.PieceOfLongChunk | WRM.HTTP.HTTP1/Streams/HttpRequestBodyStream.cs:180-195 | the one turn over a chunk longer than the room gives its first room bytes and consumes its whole encoding |
| HttpRequestBody.KeptData | WRM.HTTP.HTTP1/Streams/HttpRequestBodyStream.cs:180-195 | the data part of a corrected turn hands out between 1 and room bytes, and what it hands out plus what it leaves owed is what was owed of the chunk |
| HttpRequestBody.NextPieceKept | WRM.HTTP.HTTP1/Streams/HttpRequestBodyStream.cs:143-199 | a corrected turn never consumes more than is there and never hands out more than the room |
| HttpRequestBody.KeptAgrees | WRM.HTTP.HTTP1/Streams/HttpRequestBodyStream.cs:143-199 | between chunks, for every input whose next chunk fits the room, the corrected turn has the same outcome as the turn as written: the same end, the same failure, or the same bytes with the same bytes consumed |
| HttpRequestBody.KeptFirst | WRM.HTTP.HTTP1/Streams/HttpRequestBodyStream.cs:180-195 | over a chunk longer than the room, the corrected turn hands out the first room bytes, stops right after them and owes the rest of the chunk |
| HttpRequestBody.KeptRest | WRM.HTTP.HTTP1/Streams/HttpRequestBodyStream.cs:180-195 | a turn that owes the rest of a chunk and has room for it hands it out whole and consumes the CR LF after it |
| HttpRequestBody.LongChunkKept | WRM.HTTP.HTTP1/Streams/HttpRequestBodyStream.cs:180-195 | over any chunk longer than the room, the corrected turns deliver all its bytes in order in two turns and consume exactly its encoding, where the turn as written loses its tail |
| HttpRequestBody.DrainEncoded | WRM.HTTP.HTTP1/Streams/HttpRequestBodyStream.cs:263-272 | disposing a body that fits in one drain read consumes exactly its encoding and reaches its end |
| HttpRequestBody.ChunkedNamed | WRM.HTTP.HTTP1/Streams/HttpRequestBodyStream.cs:25-26 | "chunked" anywhere in Transfer-Encoding, in any case, selects chunked mode |
| HttpRequestBody.ShortNotChunked | WRM.HTTP.HTTP1/Streams/HttpRequestBodyStream.cs:25-26 | a Transfer-Encoding shorter than "chunked" cannot select it |
| HttpRequestBody.ContentLengthOf | WRM.HTTP.HTTP1/Streams/HttpRequestBodyStream.cs:28-37 | without chunking, any 64-bit Content-Length written in decimal is the body length, and an absent one gives 0 |
| HttpRequestBody.RangeChecksAgree | WRM.HTTP.HTTP1/Streams/HttpRequestBodyStream.cs:67-68 | the argument check as written and the intended one agree whenever offset + count does not overflow |
| HttpRequestBody.RangeCheckOverflow | WRM.HTTP.HTTP1/Streams/HttpRequestBodyStream.cs:67-68 | as written, offset 1 and count 2^31 - 1 on a 16-byte buffer pass the check because the 32-bit sum wraps, while the intended check refuses them |
| HttpRequestBody.ContentReadsBound | WRM.HTTP.HTTP1/Streams/HttpRequestBodyStream.cs:74-83 | a run of Content-Length reads delivers no more than the peer sent and no more than the Content-Length, and nothing when it is zero or negative |
| HttpRequestBody.ContentReadsComplete | WRM.HTTP.HTTP1/Streams/HttpRequestBodyStream.cs:74-83 | a run of reads that ends on an empty read after asking for bytes delivers the whole Content-Length when the peer sent it |
| HttpRequestBody.ContentDrain | WRM.HTTP.HTTP1/Streams/HttpRequestBodyStream.cs:277-290 | the content drain takes nothing when no length is left, and otherwise the rest of the length or all the peer sent |
| HttpRequestBody.StartRead | WRM.HTTP.HTTP1/Streams/HttpRequestBodyStream.cs:148 | a chunked read starts with nothing read and nothing consumed |
| HttpRequestBody.FilledRead | WRM.HTTP.HTTP1/Streams/HttpRequestBodyStream.cs:150 | a read that filled its room returns the count of bytes read and has not ended the body |
| HttpRequestBody.TurnAdvances | WRM.HTTP.HTTP1/Streams/HttpRequestBodyStream.cs:150-196 | each turn of the chunk loop either ends or fails the read, or adds its data behind what was read and leaves the rest of the read to what is left |
| HttpRequestBody.EndedRead | WRM.HTTP.HTTP1/Streams/HttpRequestBodyStream.cs:155-177 | a turn that ends the body ends the read with what was read so far |
| HttpRequestBody.BrokenRead | WRM.HTTP.HTTP1/Streams/HttpRequestBodyStream.cs:165-188 | a turn that fails fails the read with an invalid-data error |
| HttpRequestBody.GrowRead | WRM.HTTP.HTTP1/Streams/HttpRequestBodyStream.cs:182-192 | a turn's data is written behind what was read |
| HttpRequestBody.ZeroSizeRead | WRM.HTTP.HTTP1/Streams/HttpRequestBodyStream.cs:171-177 | after a size line of zero the read ends behind the trailers |
| HttpRequestBody.ShortDataRead | WRM.HTTP.HTTP1/Streams/HttpRequestBodyStream.cs:187-188 | a stream that ends inside the data fails the read |
| HttpRequestBody.DataRead | WRM.HTTP.HTTP1/Streams/HttpRequestBodyStream.cs:180-195 | after a non-zero size line, the read is the turn's data and line, then a read of what is left |
| HttpRequestBody.DataTurnFrom | WRM.HTTP.HTTP1/Streams/HttpRequestBodyStream.cs:180-195 | the data part of a turn, whether the stream ends inside it or not, is what TurnRead says of the body |
| HttpRequestBody.ShortDataTurn | WRM.HTTP.HTTP1/Streams/HttpRequestBodyStream.cs:185-188 | a turn that the end of the stream cut short fails |
| HttpRequestBody.GotDataTurn | WRM.HTTP.HTTP1/Streams/HttpRequestBodyStream.cs:180-195 | a turn that copied all the bytes it asked for writes them at the buffer's offset and goes on after the line |
| HttpRequestBody.FailedTurn | WRM.HTTP.HTTP1/Streams/HttpRequestBodyStream.cs:165-168 | a turn that failed fails the read |
| HttpRequestBody.GotTurn | WRM.HTTP.HTTP1/Streams/HttpRequestBodyStream.cs:180-195 | a turn that read n bytes writes them and leaves the rest of the read to what is left |
| HttpRequestBody.DataLinePiece | WRM.HTTP.HTTP1/Streams/HttpRequestBodyStream.cs:180-195 | after a non-zero size line the turn is the data bytes and the line after them |
| HttpRequestBody.DataPieceRead | WRM.HTTP.HTTP1/Streams/HttpRequestBodyStream.cs:150-196 | a turn of data starts the read, followed by a read of what is left |
| HttpRequestBody.SizedDataPiece | WRM.HTTP.HTTP1/Streams/HttpRequestBodyStream.cs:180-195 | after a size line and a non-zero size the turn is the data bytes and the line after them |
| HttpRequestBody.EmptyLineRead | WRM.HTTP.HTTP1/Streams/HttpRequestBodyStream.cs:155-159 | an empty size line ends the read |
| HttpRequestBody.BadSizeRead | WRM.HTTP.HTTP1/Streams/HttpRequestBodyStream.cs:165-168 | a size line that does not parse fails the read after the line |
| HttpRequestBody.EmptyLinePiece | WRM.HTTP.HTTP1/Streams/HttpRequestBodyStream.cs:155-159 | an empty size line ends the body |
| HttpRequestBody.BadSizePiece | WRM.HTTP.HTTP1/Streams/HttpRequestBodyStream.cs:165-168 | a size line that does not parse is an error after the line |
| HttpRequestBody.LineStep | WRM.HTTP.HTTP1/Streams/HttpRequestBodyStream.cs:210-238 | one more byte moves the line reader as BodyLine says |
| HttpRequestBody.LineAtEnd | WRM.HTTP.HTTP1/Streams/HttpRequestBodyStream.cs:214-215 | at the end of the stream the line read so far is the line |
| HttpRequestBodyStream.HttpRequestBodyStream.constructor | WRM.HTTP.HTTP1/Streams/HttpRequestBodyStream.cs:18-38 | the stream starts undisposed and not ended, chunked exactly when Transfer-Encoding names chunked, and with the parsed Content-Length (0 when absent or chunked) as what remains |
| HttpRequestBodyStream.HttpRequestBodyStream.ReadAsync | WRM.HTTP.HTTP1/Streams/HttpRequestBodyStream.cs:59-84 | a disposed stream, a null buffer and a range that does not fit the buffer throw and change nothing; a chunked read after the end returns 0; a chunked read is ReadChunked; a Content-Length read takes min(count, remaining) bytes the peer sent into the buffer at offset and lowers remaining by as many |
| HttpRequestBodyStream.HttpRequestBodyStream.ContentLengthRead | WRM.HTTP.HTTP1/Streams/HttpRequestBodyStream.cs:74-83 | the bytes delivered are the next ones of the connection, no more than count and than remaining, written at offset with the rest of the buffer kept, and remaining drops by their number |
| HttpRequestBodyStream.HttpRequestBodyStream.Dispose | WRM.HTTP.HTTP1/Streams/HttpRequestBodyStream.cs:101-138 | the first dispose with disposing set drains the rest of the chunks or of the Content-Length from the connection and marks the stream disposed; a second dispose or a finalizer call reads nothing; the base stream is never closed |
| HttpRequestBodyStream.HttpRequestBodyStream.DrainRemainingChunks | WRM.HTTP.HTTP1/Streams/HttpRequestBodyStream.cs:263-272 | reads chunks into a scratch buffer until a read fails, returns nothing or ends the body, consuming what ChunkDrain says |
| HttpRequestBodyStream.HttpRequestBodyStream.DrainRead | WRM.HTTP.HTTP1/Streams/HttpRequestBodyStream.cs:266-271 | one drain read consumes bytes, and either ends the drain or leaves the rest of it to what is left |
| HttpRequestBodyStream.HttpRequestBodyStream.DrainRemainingContent | WRM.HTTP.HTTP1/Streams/HttpRequestBodyStream.cs:277-290 | reads and drops the rest of the Content-Length, stopping early when the peer sends nothing more |
| HttpRequestBodyStream.HttpRequestBodyStream.ReadLine | WRM.HTTP.HTTP1/Streams/HttpRequestBodyStream.cs:204-241 | reads byte by byte what BodyLine says, and consumes exactly the bytes BodyLine counts |
| HttpRequestBodyStream.HttpRequestBodyStream.ReadTrailers | WRM.HTTP.HTTP1/Streams/HttpRequestBodyStream.cs:246-258 | consumes exactly the trailer section up to and including its empty line |
| HttpRequestBodyStream.HttpRequestBodyStream.ReadChunkData | WRM.HTTP.HTTP1/Streams/HttpRequestBodyStream.cs:181-192 | copies min(size, room) bytes behind what was read, or reports a stream that ended first |
| HttpRequestBodyStream.HttpRequestBodyStream.ReadMore | WRM.HTTP.HTTP1/Streams/HttpRequestBodyStream.cs:184-190 | one read into the chunk's data takes a non-empty run of the next bytes, and nothing only at the end of the stream |
| HttpRequestBodyStream.HttpRequestBodyStream.ReadChunked | WRM.HTTP.HTTP1/Streams/HttpRequestBodyStream.cs:143-199 | after the end a read returns 0 and changes nothing; otherwise the result, the end flag, the bytes consumed and the buffer are those of ReadChunks over what the connection holds |
| HttpRequestBodyStream.HttpRequestBodyStream.ChunkLoop | WRM.HTTP.HTTP1/Streams/HttpRequestBodyStream.cs:150-196 | the loop of the chunked read does what ReadChunks says |
| HttpRequestBodyStream.HttpRequestBodyStream.Advance | WRM.HTTP.HTTP1/Streams/HttpRequestBodyStream.cs:153-195 | one turn of the loop keeps the read on course for ReadChunks and consumes at least one byte when it goes on |
| HttpRequestBodyStream.HttpRequestBodyStream.TakeTurn | WRM.HTTP.HTTP1/Streams/HttpRequestBodyStream.cs:153-195 | one turn reads the size line, then the trailers or the data and its line, as NextPiece says |
| HttpRequestBodyStream.HttpRequestBodyStream.SizedTurn | WRM.HTTP.HTTP1/Streams/HttpRequestBodyStream.cs:171-195 | after a size line that parsed, the turn ends the body on 0 and reads data otherwise, as SizedPiece says |
| HttpRequestBodyStream.HttpRequestBodyStream.DataTurn | WRM.HTTP.HTTP1/Streams/HttpRequestBodyStream.cs:180-195 | after a non-zero size the turn copies the data and reads the line after it, as DataPiece says |
| HttpRequestBodyStream.HttpRequestBodyStream.ChunkBody | WRM.HTTP.HTTP1/Streams/HttpRequestBodyStream.cs:180-195 | copies ChunkTake(size, room) bytes into the buffer behind what was read and then consumes one line, or reports a stream that ended inside the data |
| Firewall.BeforeColon | WRM.Core/Plugins/Firewall/Rules/BlockHostRule.cs:24-34 | the first piece of a split on ':' is the longest prefix without a ':', and it stops at a ':' when shorter than the text |
| Firewall.NewBlockHost | WRM.Core/Plugins/Firewall/Rules/BlockHostRule.cs:9-14 | the rule blocks exactly the given hosts, lower-cased |
| Firewall.BlockedLowered | WRM.Core/Plugins/Firewall/Rules/BlockHostRule.cs:11-13 | every host the rule keeps is already lower-case |
| Firewall.NoHttpAllows | WRM.Core/Plugins/Firewall/Rules/BlockHostRule.cs:18-19 | without an "http" item every rule allows |
| Firewall.BeforeColonOf | WRM.Core/Plugins/Firewall/Rules/BlockHostRule.cs:24-25 | the piece before the ':' of host:port is the host |
| Firewall.ConnectBlocked | WRM.Core/Plugins/Firewall/Rules/BlockHostRule.cs:22-31 | a CONNECT to host:port is blocked exactly when the host equals one of the rule's hosts ignoring case |
| Firewall.HostHeaderBlocked | WRM.Core/Plugins/Firewall/Rules/BlockHostRule.cs:32-40 | any other request is blocked exactly when it has a Host header whose host part, lower-cased, is one of the blocked hosts |
| Firewall.MethodOnly | WRM.Core/Plugins/Firewall/Rules/BlockMethodRule.cs:14-24 | a method rule decides on the request's method alone |
| Firewall.BlockIffSome | WRM.Core/Plugins/Firewall/FirewallEngine.cs:12-22 | the engine blocks exactly when some rule blocks, so no rules allow everything |
| Firewall.EvaluateRules | WRM.Core/Plugins/Firewall/FirewallEngine.cs:12-22 | the loop returns the engine's decision; it asks the rules in order, all of those before the last one asked allowed, it stops at the first rule that blocks, and it asks all rules when it allows |
| Firewall.InvokeAsync | WRM.Core/Plugins/Firewall/Steps/FirewallStep.cs:15-40 | without an "http" item the step calls next once; a blocked request disposes the connection and calls next no more; an allowed one calls next once; nothing is read from or written to the connection |
| Pipeline.Reached | WRM.Core/PipelineBuilder.cs:17-24 | the steps a run reaches are a prefix of the registered ones: every step before the last reached one calls next, and the run stops short only at a step that does not |
| Pipeline.Reverse | WRM/WRM.Core/PluginHost.cs:31 | the reversed list has the same length and holds the elements back to front |
| Pipeline.RunChain | WRM.Core/PipelineBuilder.cs:17-24 | the composed entry point runs the registered steps in registration order up to and including the first one that does not call next |
| Pipeline.StopHidesLater | WRM.Core/PipelineBuilder.cs:17-24 | nothing registered after a step that does not call next ever runs |
| Pipeline.AggregateReverse | WRM/WRM.Core/PluginHost.cs:24-35 | folding the reversed components from the seed builds the same entry point as wrapping each step around the later ones |
| Pipeline.ComposeIsChain | WRM/WRM.Core/PluginHost.cs:24-35 | the LINQ composition (Select, Reverse, Aggregate from the no-op) equals the reference composition |
| Pipeline.PipelineBuilder.constructor | WRM.Core/PipelineBuilder.cs:8 | a new builder has no components |
| Pipeline.PipelineBuilder.Use | WRM.Core/PipelineBuilder.cs:10-14 | appends exactly one component for the step and returns the same builder |
| Pipeline.PipelineBuilder.Build | WRM.Core/PipelineBuilder.cs:17-25 | the loop from the last component down to the first builds the reference composition, which runs the steps up to the first that does not call next |
| Pipeline.PluginHost.constructor | WRM/WRM.Core/PluginHost.cs:7 | a new host has no steps |
| Pipeline.PluginHost.RegisterStep | WRM/WRM.Core/PluginHost.cs:9-13 | the steps the factories make are appended in list order |
| Pipeline.PluginHost.RegisterPlugin | WRM/WRM.Core/PluginHost.cs:15-22 | each plugin registers its steps in turn, so they are appended in plugin order and then in each plugin's own order |
| Pipeline.PluginHost.Build | WRM/WRM.Core/PluginHost.cs:24-35 | the registered steps composed in registration order, running up to the first that does not call next |
| Pipeline.FlattenSnoc | WRM/WRM.Core/PluginHost.cs:15-22 | the steps of one more plugin come after those of the plugins before it |
| Pipeline.HttpPipelineStep.constructor | WRM/WRM.Core/Plugins/Http/HttpPipline/Steps/HttpPiplineStep.cs:9-22 | each factory is invoked once, in list order, and the middlewares are composed in that order |
| Pipeline.HttpPipelineStep.InvokeAsync | WRM/WRM.Core/Plugins/Http/HttpPipline/Steps/HttpPiplineStep.cs:26-34 | when the item under "HttpContext" is an HTTP context, which is the Http1Context ParseHttp1Step stores, the middlewares run up to the first that does not call next, and otherwise none runs; next is then called exactly once either way |
| Pipeline.StoredContextRuns | WRM/WRM.Core/Plugins/Http/HttpPipline/Steps/HttpPiplineStep.cs:28 | the item stored under "HttpContext" passes the step's type test exactly when it is an Http1Context |
| PeekStreams.Filled | WRM/WRM.Core/Streams/BufferedPeekStream.cs:16-21 | copying data into a buffer at an index puts the data there and keeps every other byte |
| PeekStreams.ReplayStream.constructor | WRM.Wrapps/Streams/BufferedPeekStream.cs:8-12 | a new stream has handed out nothing and will hand out the prefix, then the rest of the inner stream |
| PeekStreams.ReplayStream.Read | WRM.Wrapps/Streams/BufferedPeekStream.cs:18-33 | a read hands out the next bytes of prefix-then-inner at offset, at most count, and 0 only for count 0 or at the end; while prefix bytes remain it takes min(count, prefix left) of them and does not touch the inner stream |
| PeekStreams.ReplayStream.Write | WRM.Wrapps/Streams/BufferedPeekStream.cs:34-39 | a write goes to the inner stream unchanged and hands out nothing |
| PeekStreams.ReplayInOrder | WRM.Wrapps/Streams/BufferedPeekStream.cs:18-33 | what the reads have handed out is always the beginning of the prefix followed by the inner stream |
| PeekStreams.SpliceStream.constructor | WRM/WRM.Core/Streams/BufferedPeekStream.cs:3-5 | a new stream has handed out nothing and will hand out the prefix, then the rest of the inner stream |
| PeekStreams.SpliceStream.TakePrefix | WRM/WRM.Core/Streams/BufferedPeekStream.cs:13-16 | takes min(count, prefix left) prefix bytes into the buffer without touching the inner stream |
| PeekStreams.SpliceStream.TakeInner | WRM/WRM.Core/Streams/BufferedPeekStream.cs:19-21 | the inner part of a read takes up to count bytes of the inner stream right after the prefix part |
| PeekStreams.SpliceStream.SpliceAt | WRM/WRM.Core/Streams/BufferedPeekStream.cs:11-24 | one read fills from the prefix first and then from the inner stream, handing out the next bytes of prefix-then-inner in order, at least min(count, prefix left) of them |
| PeekStreams.SpliceStream.Read | WRM/WRM.Core/Streams/BufferedPeekStream.cs:11-39 | as written: the same bytes, but always copied to index 0 of the buffer, whatever the offset |
| PeekStreams.SpliceStream.ReadAt | WRM/WRM.Core/Streams/BufferedPeekStream.cs:11-24 | corrected: the same bytes placed at the buffer's offset |
| PeekStreams.FilledTwice | WRM/WRM.Core/Streams/BufferedPeekStream.cs:16-23 | copying x at an index and then y right after it is copying x + y there |
| PeekStreams.SpliceInOrder | WRM/WRM.Core/Streams/BufferedPeekStream.cs:11-39 | what the reads have handed out is always the beginning of the prefix followed by the inner stream |
| PeekStreams.OffsetIgnored | WRM/WRM.Core/Streams/BufferedPeekStream.cs:16-21 | as written, a read into a non-zero offset leaves the bytes at the offset unchanged, while the offset-honouring read puts the data there; a one-byte read at offset 1 into [0, 0] leaves index 1 at 0 |
| ProtocolDetection.PatternsDisjoint | WRM.Core/Plugins/ProtocolDetection/Steps/ProtocolDetectionStep.cs:38-79 | the preface, a TLS record header and a method prefix start with different octets, so at most one of them matches |
| ProtocolDetection.DetectExact | WRM.Core/Plugins/ProtocolDetection/Steps/ProtocolDetectionStep.cs:38-79 | the result is HTTP/2 exactly for the preface, TLS exactly for a TLS record header, HTTP/1 exactly for a case-sensitive GET/POST/HEAD/CONN prefix, and Unknown exactly when none matches |
| ProtocolDetection.DetectFirst24 | WRM.Core/Plugins/ProtocolDetection/Steps/ProtocolDetectionStep.cs:38-79 | detection looks at no more than the first 24 octets |
| ProtocolDetection.InvokeAsync | WRM.Core/Plugins/ProtocolDetection/Steps/ProtocolDetectionStep.cs:14-36 | one read of up to 32 octets, empty only at the end of the stream; "protocol" holds the detection of what was read and "original-stream" the stream; the connection is replaced by one whose stream hands out what was read, then the rest of the stream, so it reads everything the peer sent from its start, and writes and disposal are those of the original; next is called once; nothing is written or disposed |
| HttpProtocolDetection.PrefaceNotMethod | WRM.HTTP.ProtocolDetection/Steps/ProtocolDetectionStep.cs:49-60 | the preface does not read as a method prefix in any case |
| HttpProtocolDetection.TlsNotMethod | WRM.HTTP.ProtocolDetection/Steps/ProtocolDetectionStep.cs:35-62 | a TLS record header is not the preface and does not read as a method prefix |
| HttpProtocolDetection.PrefaceStart | WRM.HTTP.ProtocolDetection/Steps/ProtocolDetectionStep.cs:40-43 | the preface starts with "PR" |
| HttpProtocolDetection.DetectExact | WRM.HTTP.ProtocolDetection/Steps/ProtocolDetectionStep.cs:35-62 | the result is HTTP/2 exactly for the preface and HTTP/1 exactly for a GET/POST/HEAD/CONN prefix ignoring case; it is never TLS, and a TLS record header is Unknown |
| HttpProtocolDetection.ExactIgnoringCase | WRM.HTTP.ProtocolDetection/Steps/ProtocolDetectionStep.cs:64-68 | octets that begin with an ASCII literal still begin with it when compared ignoring case |
| HttpProtocolDetection.CaseSensitiveIncluded | WRM.HTTP.ProtocolDetection/Steps/ProtocolDetectionStep.cs:49-60 | every request the case-sensitive classifier calls HTTP/1 is HTTP/1 here too |
| HttpProtocolDetection.InvokeAsync | WRM.HTTP.ProtocolDetection/Steps/ProtocolDetectionStep.cs:11-33 | one read of up to 32 octets, empty only at the end of the stream; "HTTP_PROTOCOL" holds the detection of what was read and "original-stream" the stream; the connection is replaced by one whose stream hands out what was read, then the rest of the stream, so it reads everything the peer sent from its start; next is called once |
| WrmProtocolDetection.PrefaceNotMethod | WRM/WRM.Core/Plugins/ProtocolDetection/Steps/ProtocolDetectionStep.cs:21-33 | the preface does not read as a method prefix in any case |
| WrmProtocolDetection.InlineIsDetect | WRM/WRM.Core/Plugins/ProtocolDetection/Steps/ProtocolDetectionStep.cs:21-78 | the inline classification agrees with the static Detect, which is HTTP/2 exactly for the preface and HTTP/1 exactly for a GET/POST/HEAD/CONN text prefix ignoring case |
| WrmProtocolDetection.ClassifyInline | WRM/WRM.Core/Plugins/ProtocolDetection/Steps/ProtocolDetectionStep.cs:21-33 | the preface check followed by the overriding method check computes Detect |
| WrmProtocolDetection.Sniff | WRM/WRM.Core/Plugins/ProtocolDetection/Steps/ProtocolDetectionStep.cs:18-40 | one read of up to 25 octets, empty only at the end of the stream, is classified by Detect and put in front of the stream by a peek stream that hands out the whole rest of the stream; the stream it reads as starts at everything the peer sent |
| WrmProtocolDetection.InvokeAsync | WRM/WRM.Core/Plugins/ProtocolDetection/Steps/ProtocolDetectionStep.cs:13-47 | without a stream under the TCP stream key the protocol is Unknown and nothing else changes; with one, the stream is replaced by a peek stream over what was read, whose view reads everything the peer sent from its start, and the protocol is its detection; next is called once |
| PeekStreams.Wrapped | WRM.Wrapps/Connections/WrappedConnection.cs:11-20 | the wrapped connection is new, reads exactly the stream it is given from its start, and writes and disposes as the connection it wraps |
| FrontEnd.DetectThenParse | WRM.Test/Program.cs:23-26 | ProtocolDetection then the WRM.Core HTTP/1 step: when the sniffed octets look like HTTP/1, the request is RequestAt of everything the peer sent, from its first octet |
| FrontEnd.DetectThenHandshake | WRM.Test/Program.cs:23-26 | ProtocolDetection then the HTTP/2 preface step: when the sniffed octets are the preface, the handshake is HandshakeSpec of everything the peer sent, from its first octet, and its frames are written to the connection |
| FrontEnd.DetectThenServe | WRM.HTTP.ProtocolDetection/Steps/ProtocolDetectionStep.cs:11-33 | HttpProtocolDetection then the WRM.HTTP.HTTP1 loop: when the sniffed octets look like HTTP/1, the output is Serve of everything the peer sent, from its first octet |
| FrontEnd.SniffThenServe | WRM/WRM.Test/Program.cs:64-65 | the WRM/WRM.Core detection step then its HTTP/1 step: when the sniffed octets look like HTTP/1, the output is ServeCore of everything the peer sent, from its first octet |
| NetworkContext.NetworkContext.constructor | WRM.Interface/NetworkContext.cs:3-9 | a new context holds the connection and an empty item dictionary |
| Strings.Trim | WRM.HTTP.HTTP1/Steps/Http1ParsingStep.cs:251-252 | the result is no longer than the text and neither starts nor ends with white space |
| Strings.TrimOf | WRM.HTTP.HTTP1/Steps/Http1ParsingStep.cs:251-252 | white space around a text that neither starts nor ends with white space is exactly what Trim removes |
| Strings.IndexOf | WRM.HTTP.HTTP1/Steps/Http1ParsingStep.cs:247 | the index of the first occurrence of the character, or -1 exactly when it does not occur |
| Strings.Split | WRM.HTTP.HTTP1/Streams/HttpRequestBodyStream.cs:163 | at least one piece, none holding the separator |
| Strings.SplitJoin | WRM.HTTP.HTTP1/Streams/HttpRequestBodyStream.cs:163 | the pieces joined back with the separator are the text |
| Strings.SplitOfJoin | WRM.HTTP.HTTP1/Streams/HttpRequestBodyStream.cs:163 | splitting pieces joined with a separator none of them holds gives the pieces back |
| Strings.SplitAtMost | WRM.HTTP.HTTP1/Steps/Http1ParsingStep.cs:221 | at most n pieces; only the last may hold the separator, and only when there are n |
| Strings.SplitAtMostJoin | WRM.HTTP.HTTP1/Steps/Http1ParsingStep.cs:221 | the pieces of a count-limited split joined back with the separator are the text |
| Strings.ContainsAt | WRM.HTTP.HTTP1/Streams/HttpRequestBodyStream.cs:25-26 | text containing the searched text anywhere contains it ignoring case |
| Strings.ContainsLonger | WRM.HTTP.HTTP1/Streams/HttpRequestBodyStream.cs:25-26 | text shorter than the searched text does not contain it |
| Strings.AsciiBytes | WRM.HTTP.HTTP1/Steps/Http1ParsingStep.cs:361 | one octet per character, the character's code below 128 and '?' above |
| Strings.AsciiConcat | WRM.HTTP.HTTP1/Steps/Http1ParsingStep.cs:361 | the octets of text built piece by piece are the pieces' octets in order |
| Strings.ParseLong | WRM.HTTP.HTTP1/Streams/HttpRequestBodyStream.cs:29 | a parsed value is a 64-bit integer |
| Strings.ParseLongText | WRM.HTTP.HTTP1/Streams/HttpRequestBodyStream.cs:29 | the decimal text of every 64-bit integer parses back to it |
| Strings.HexValueOfDigits | WRM.HTTP.HTTP1/Streams/HttpRequestBodyStream.cs:165 | the hexadecimal digits of a number read back as that number |
| Strings.ParseHexDigits | WRM.HTTP.HTTP1/Streams/HttpRequestBodyStream.cs:165 | the hexadecimal digits of a 32-bit value parse to its two's-complement reading |
| Decimal.IntText | WRM.HTTP.HTTP2/Steps/Http2RequestStep.cs:62 | the text of a number is its decimal digits, with a minus sign in front of a negative one |
| Decimal.ValueOfDigits | WRM.HTTP.HTTP2/Steps/Http2RequestStep.cs:62 | the decimal digits of a number read back as that number |
| Decimal.DigitsInjective | WRM.HTTP.HTTP2/Steps/Http2RequestStep.cs:62 | different numbers have different decimal texts |

## Left out

- Sockets, TLS, listeners and the connection wrappers other than `WrappedConnection` (`TcpConnection`, `SslConnection`, `MoveToSSLStep`, `DetactionTcpStep`) are not modelled: they are I/O plumbing and calls into `SslStream`. The context holds a `Channel` in their place.
- `SSLDetectionStep` (both copies) is not modelled. Its only logic is the 3-byte TLS test, which `ProtocolDetection.Detect` models. The rest swaps streams.
- The CONNECT tunnel relays (`PipeAsync`/`TunnelAsync`) are not modelled. They race two concurrent copies over real sockets. `Http1Context.Http1Context.MakeTunel` models only the 200 answer it writes first. The write the source starts without awaiting it is modelled as done at once.
- Timeouts, cancellation tokens and the clock are left out. The `Date` header is a `date: string` parameter of the response functions. An exception the next step throws is a `Failure` value (timeout, IOException, InvalidDataException, anything else), and each is answered as its catch clause says.
- End of stream while reading a request head is a terminal outcome. In the source, it spins until the read timeout fires.
- Logging and console output are left out (`Logger`, `ConsoleLoger` and the log calls in every step), along with the demo handlers.
- The routing, query-parameter and endpoint middlewares are left out. They are thin wrappers over `System.Uri` and `Regex`.
- `PipelineFactory`, `PluginLoader`, the `WRM.Core` `PluginHost`, `NetworkEngine` and `WRMEngine` are left out. They are reflection and registration plumbing, or only create a context and call the pipeline.
- The `HttpContext` finalizer is left out: it depends on the garbage collector.
- Copies that repeat a modelled file are not modelled again:
  - `WRM.HTTP.HTTP2/HPACK/HpackStaticTable.cs`;
  - `WRM/WRM.Core/Plugins/Http/Http1/Streams/HttpRequestBodyStream.cs`;
  - `WRM.HTTP.HTTP2/Steps/Http2PrefaceStep.cs`, which differs only in its context key and logging;
  - `WRM.Core/Streams/Tools/LineReader.cs`, the synchronous twin of `StreamLineReader`.
- `Http2Connection.Streams` is a `ConcurrentDictionary` in the source. Only one execution unit touches it, so it is a sequential `map` here.
- `WRM.Core.Streams.BufferedPeekStream`, used by the `WRM.Core` detection step, is not part of this model: its file is not among the sources. `ProtocolDetection.InvokeAsync` replays the sniffed bytes with the `WRM.Wrapps` `ReplayStream` instead, and the connection it installs reads what that stream hands out.
- PeekStreams.Wrapped: the wrapped connection is a new `Channel` whose input is everything the peek stream hands out, with the written bytes and the disposed flag of the connection it wraps copied in. Later writes and a later disposal go to the new channel only: the model does not carry them through to the wrapped connection, as `WrappedConnection.Dispose` and the peek stream's `Write` do. Reads, which are what the later steps depend on, are exact. The same holds for the view `WrmProtocolDetection.InvokeAsync` stores beside its `SpliceStream`; that view places the bytes at the caller's offset, unlike the stream as written (see Findings). The two hand out the same bytes, report the same count and leave both streams at the same position; only the index the bytes land at differs. In WRM/WRM.Core the stored stream is read at a non-zero offset only when the request body is disposed after the pipeline (WRM/WRM.Core/Plugins/Http/Http1/Steps/ParseHttp1Step.cs:93): the drain reads into its own 8192-byte buffer (WRM/WRM.Core/Plugins/Http/Http1/Streams/HttpRequestBodyStream.cs:233-236 and 247-251), and a chunked body lands at `offset + totalBytesRead` (line 168) from the second read on. The drain throws that buffer away, so where the bytes land inside it changes nothing that is observed. The line reader reads one byte at a time at offset 0 (WRM/WRM.Core/Tools/StreamLineReader.cs:13), where the two agree byte for byte.
- Huffman-coded strings are decoded by a `huffman: Bytes -> HString` parameter: `HpackHuffman.Decode` is not part of this model. The encoder never emits them.
- `GoAwayFrame.DebugMessage` takes its UTF-8 decoder as a parameter `utf8`.
- Common.Octets: maps each character to its code point modulo 256, where the source encodes text with UTF-8 (`Encoding.UTF8.GetBytes` in the HPACK encoder). The two agree on ASCII only.
- Common.Text: turns each octet into the character with that code, where the source decodes UTF-8 (`Encoding.UTF8.GetString` in the HPACK decoder). The two agree on ASCII only.
- The static and dynamic tables hold names and values as octet strings built with Common.Octets, so the same ASCII-only caveat applies to them.
- HpackDynamicTable.EntrySize: counts the octets of name and value. The source counts `string.Length`, in UTF-16 units, after decoding. Eviction can differ once a header holds a character outside ASCII.
- HpackDynamicTable.DynamicTable.Add: `currentSize` is an unbounded integer. The 32-bit wrap of the source's `_currentSize += entrySize` is not modelled: the sizes stay far below 2^31 for any table that fits in memory.
- Http2RequestStep.ResponseHeaders: the content-length is the octet count of the body built from the response text with Common.Octets. The source counts UTF-8 bytes, and the two differ for non-ASCII text.
- Common.Lower, Common.EqualsIgnoreCase and Common.StartsWithIgnoreCase: fold ASCII letters only. `ToLowerInvariant` and `OrdinalIgnoreCase` fold all of Unicode.
- Http2FrameIO.FrameWriter.WriteFrame: a frame's payload is a sequence and cannot be null. The source's null payload, which writes the header alone, is the empty payload here.
- Http2FrameDispatchStep.InvokeAsync, Http2PrefaceStep.InvokeAsync and Http2RequestStep.InvokeAsync: the `next` continuation is a count of how often it is called, returned as an out-parameter. What a later step does to the connection is not modelled.
- Http1ParsingStep.InvokeAsync: the `HTTP_CONTEXT` item is a value holding the request line and headers (`Http1Item`). The source stores a live reference that later steps can change.
- Pipeline.RunChain and Pipeline.StopHidesLater: each step is a constant `Stage`, `Pass` or `Stop`. A step whose choice to call `next` depends on the context is not covered.
- Firewall.HttpTyped: required by the firewall rules. It states that the item under "http" is an HTTP context. The source's cast `(HttpContext)` would throw `InvalidCastException` on any other item, and that exception is not modelled.
- HttpRequestBodyStream.HttpRequestBodyStream.ReadAsync: refuses a range whose 32-bit sum `offset + count` wraps, where the source lets it through (see Findings). A read that fits in what is left of the buffer then succeeds in the source.
- PeekStreams.SpliceStream: the forwarding of `Write` and `Flush` to the inner stream is not modelled. Only reads are.
- Http1Context.Http1Context.WriteResponse: a body that can seek is written from its start. The source announces `body.Length` (WRM/WRM.Core/Plugins/Http/Http1/Abstraction/Http1Context.cs:54) and then copies from the stream's current `Position` (line 90), so a handler that leaves the position past 0 sends less than `Content-Length` announces. Handler bodies are values here, with no position of their own. The `DisposeAsync()` at line 94 is the context's own and only suppresses finalization (WRM/WRM.Core/Plugins/Http/Abstraction/HttpContext.cs:18-22), so nothing observable is left out there; the response body stream is not disposed by this writer.
- Http1Context.LengthAnnounced: holds for the body as a value written from its start, for the same reason as the line above; in the source it holds when the handler leaves the body's position at 0.
- Floating point, threads and `Task` scheduling do not occur in the model. Every asynchronous method is a sequential method.
- Http1ParsingStep.WriteResponseAsync: a body that can seek is written from its start. The source checks `Body.Length` and then copies from the stream's current `Position`, so a handler that leaves the position past 0 sends less than `Content-Length` announces. Handler bodies are values here, with no position of their own.
- Http1Syntax.KeepAliveCases: the `HTTP/1.0` version test compares characters ordinally. The source's `StartsWith("HTTP/1.0")` uses the current culture, which agrees on the ASCII request lines the parser accepts.
- CoreHttp1ParsingStep.InvokeAsync and Http2PrefaceStep.InvokeAsync: an item under "protocol" that is not a detected protocol reads as no protocol detected. The source's cast `(DetectedProtocol)p` throws `InvalidCastException` on such an item, which only a foreign step could have stored.

## Findings

| source | as written | input that shows it | evidently intended | confidence | as-written member | corrected member |
|---|---|---|---|---|---|---|
| WRM.Core/Plugins/Http2/Frames/WindowUpdateFrame.cs:40-44 | ToFrame checks that the increment is non-zero, then masks it to 31 bits | increment 0x80000000: it passes the check, is written as 0, and Parse refuses the frame | refuse any increment whose low 31 bits are 0, so every frame built parses back | not executed | WindowUpdateFrame.AsWrittenTopBitOnly | WindowUpdateFrame.ParseToFrame |
| WRM/WRM.Core/Streams/BufferedPeekStream.cs:11-39 | Read and ReadAsync copy the buffered bytes to index 0 of the caller's buffer and the inner stream's bytes to index `readMemory` right after them (lines 16, 21, 31 and 36), ignoring `offset` | a one-byte read at offset 1 into [0, 0] leaves index 1 unchanged | copy to `buffer[offset..]` | not executed | PeekStreams.OffsetIgnored | PeekStreams.SpliceStream.ReadAt |
| WRM.HTTP.HTTP1/Streams/HttpRequestBodyStream.cs:180-195 | after a chunk's data loop stops because the caller's buffer is full, the reader still reads a line for the chunk's CR LF | a chunk longer than the buffer: its tail is swallowed as that line, and the next read starts at the following size line | remember how much of the chunk is still owed and read the CR LF only once it is used up | not executed | HttpRequestBody.ChunkTailLost | HttpRequestBody.LongChunkKept |
| WRM.HTTP.HTTP1/Streams/HttpRequestBodyStream.cs:67 | the range check computes `offset + count` in 32-bit arithmetic | offset 1, count 2^31 - 1, on a 16-byte buffer: the sum wraps negative and the check passes | refuse a range that does not fit the buffer | not executed | HttpRequestBody.RangeCheckOverflow | HttpRequestBody.RangeChecksAgree |
| WRM.HTTP.HTTP1/Steps/Http1ParsingStep.cs:365-368 | the response writer reads `response.Body.Length` to decide whether to copy the body, and that property throws `NotSupportedException` on a stream that cannot seek | a response whose body stream cannot seek: `Body.Length` throws after the head was sent, and the 500 page follows | copy a body that cannot seek without asking its length | not executed | Http1ParsingStep.UnseekableBodyLost | Http1ParsingStep.WrittenFixedDelivers |
| WRM.Core/Plugins/Http2/Frames/DataFrame.cs:43 | Parse refuses a padded frame when the pad length is at least the payload length minus one (`>=`) | a PADDED frame with payload [3, 0, 0, 0]: no data and three octets of padding, which ToFrame builds for empty data with pad length 3, is refused | refuse only padding longer than what follows the pad-length octet, as section 6.1 of RFC 7540 says | not executed | DataFrame.PaddedEmptyRefused | DataFrame.ParseFixedToFrame |
| WRM/WRM.Core/Plugins/Http/Abstraction/HttpRequestHeaders.cs:41-42 | each cookie is split at ':' | `Cookie: a=1`: the piece has no ':', `parts[1]` throws and Add fails | split each cookie at '=', the separator of section 4.2.1 of RFC 6265 | not executed | RequestHeaders.EqualsCookieRejected | RequestHeaders.EqualsCookies |
| WRM/WRM.Core/Plugins/Http/Http1/Steps/ParseHttp1Step.cs:78-91 | the context is built with the loop's keep-alive flag before the request's own Connection header is taken into account | a request with `Connection: close` whose response has no Connection header: the response says keep-alive, and the loop then stops | build the context with the request's own decision | not executed | ParseHttp1Step.StaleKeepAliveAnnounced | ParseHttp1Step.FixedAnnouncesLoop |

In every row, the corrected definition sits beside the one as written, with the intended property proved about it.
- The step and stream classes keep the behaviour of the source as written, since that is what they model: `DataFrame.Parse` and `RequestHeaders.CookiesIn` are the checks as written, and `DataFrame.ParseFixed` and `RequestHeaders.CookiesInFixed` sit beside them. The one exception is `HttpRequestBodyStream.ReadAsync`, which checks the range with the intended `HttpRequestBody.RangeRejected`.
- For the third row, `HttpRequestBody.NextPieceKept` is the corrected turn. `HttpRequestBody.KeptAgrees` proves that the corrected turn agrees with the turn as written on every chunk that fits the buffer. `HttpRequestBody.LongChunkKept` proves that it delivers the whole of a longer chunk.
