/**
 * The six SETTINGS parameters a connection keeps for each side (section 6.5.2
 * of RFC 7540), as an object whose properties are set in place.
 */
module Http2Settings {
  import opened Common

  /** A snapshot of the six properties. */
  datatype Values = Values(
    headerTableSize: uint32,
    enablePush: bool,
    maxConcurrentStreams: uint32,
    initialWindowSize: uint32,
    maxFrameSize: uint32,
    maxHeaderListSize: uint32)

  /** The property initialisers of Http2Settings. */
  const Defaults: Values := Values(4096, true, 100, 65535, 16384, 0xFFFF_FFFF)

  class Settings {
    var headerTableSize: uint32
    var enablePush: bool
    var maxConcurrentStreams: uint32
    var initialWindowSize: uint32
    var maxFrameSize: uint32
    var maxHeaderListSize: uint32

    function Value(): Values
      reads this
    {
      Values(headerTableSize, enablePush, maxConcurrentStreams, initialWindowSize, maxFrameSize, maxHeaderListSize)
    }

    /** A new object holds the defaults of RFC 7540, except 100 concurrent streams. */
    constructor ()
      ensures Value() == Defaults
    {
      headerTableSize := 4096;
      enablePush := true;
      maxConcurrentStreams := 100;
      initialWindowSize := 65535;
      maxFrameSize := 16384;
      maxHeaderListSize := 0xFFFF_FFFF;
    }
  }
}
