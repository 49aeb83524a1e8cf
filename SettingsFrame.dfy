/**
 * The SETTINGS frame (section 6.5 of RFC 7540): a list of (identifier, value)
 * pairs, its parser and serialiser, and how the parameters are applied to a
 * connection's settings.
 */
module SettingsFrame {
  import opened Common
  import opened Http2Frame
  import opened Http2Settings

  const SETTINGS_HEADER_TABLE_SIZE: uint16 := 0x1
  const SETTINGS_ENABLE_PUSH: uint16 := 0x2
  const SETTINGS_MAX_CONCURRENT_STREAMS: uint16 := 0x3
  const SETTINGS_INITIAL_WINDOW_SIZE: uint16 := 0x4
  const SETTINGS_MAX_FRAME_SIZE: uint16 := 0x5
  const SETTINGS_MAX_HEADER_LIST_SIZE: uint16 := 0x6

  datatype Param = Param(id: uint16, value: uint32)

  // ---------------------------------------------------------------------
  // The Parameters dictionary
  // ---------------------------------------------------------------------

  /**
   * A Dictionary<ushort, uint> that is only ever added to enumerates its keys
   * in insertion order; it is modelled as that sequence of entries, whose keys
   * are distinct.
   */
  predicate DistinctIds(ps: seq<Param>)
  {
    forall i, j :: 0 <= i < j < |ps| ==> ps[i].id != ps[j].id
  }

  type Parameters = ps: seq<Param> | DistinctIds(ps) witness []

  function Ids(ps: seq<Param>): set<int>
  {
    set p | p in ps :: p.id as int
  }

  /** The position of the first entry with key `id`, or -1. */
  function IndexOf(ps: seq<Param>, id: uint16): (r: int)
    ensures -1 <= r < |ps|
    ensures r >= 0 ==> ps[r].id == id && forall i :: 0 <= i < r ==> ps[i].id != id
    ensures r < 0 ==> forall i :: 0 <= i < |ps| ==> ps[i].id != id
  {
    if |ps| == 0 then -1
    else if ps[0].id == id then 0
    else
      var r := IndexOf(ps[1..], id);
      assert forall i :: 1 <= i < |ps| ==> ps[i] == ps[1..][i - 1];
      if r < 0 then -1 else r + 1
  }

  /** The value stored under `id`, if any. */
  function Lookup(ps: seq<Param>, id: uint16): Option<uint32>
  {
    var m := IndexOf(ps, id);
    if m < 0 then None else Some(ps[m].value)
  }

  /** `Parameters[id] = value`: an existing key keeps its place and takes the new value, a new key goes last. */
  function Put(ps: seq<Param>, id: uint16, value: uint32): (r: seq<Param>)
  {
    var m := IndexOf(ps, id);
    if m < 0 then ps + [Param(id, value)] else ps[m := Param(id, value)]
  }

  /** After a Put the key maps to the new value and every other key is unchanged. */
  lemma PutLookup(ps: seq<Param>, id: uint16, value: uint32, k: uint16)
    ensures Lookup(Put(ps, id, value), k) == if k == id then Some(value) else Lookup(ps, k)
  {
    var q := Put(ps, id, value);
    var m := IndexOf(ps, k);
    var n := IndexOf(q, k);
    assert forall i :: 0 <= i < |ps| ==> q[i].id == ps[i].id;
    if k == id {
      if m < 0 {
        assert q[|ps|].id == id;
        assert n == |ps|;
      } else {
        assert q[m].id == id;
        assert n == m;
      }
    } else {
      assert n == m;
    }
  }

  lemma IdsIndex(ps: seq<Param>)
    ensures forall x :: x in Ids(ps) <==> exists m :: 0 <= m < |ps| && ps[m].id as int == x
  {
    forall x | x in Ids(ps)
      ensures exists m :: 0 <= m < |ps| && ps[m].id as int == x
    {
      var q :| q in ps && q.id as int == x;
      var m :| 0 <= m < |ps| && ps[m] == q;
    }
  }

  /** A key is found iff it is present. */
  lemma LookupNone(ps: seq<Param>, k: uint16)
    ensures Lookup(ps, k).None? <==> k as int !in Ids(ps)
  {
    IdsIndex(ps);
  }

  /** Put keeps the keys distinct and adds `id` to them; a new key goes at the end. */
  lemma PutDistinct(ps: seq<Param>, id: uint16, value: uint32)
    requires DistinctIds(ps)
    ensures DistinctIds(Put(ps, id, value))
    ensures Ids(Put(ps, id, value)) == Ids(ps) + {id as int}
    ensures id as int !in Ids(ps) ==> Put(ps, id, value) == ps + [Param(id, value)]
  {
    var q := Put(ps, id, value);
    IdsIndex(ps);
    IdsIndex(q);
    assert forall i :: 0 <= i < |ps| ==> q[i].id == ps[i].id;
  }

  lemma {:induction false} IdsOfDistinct(ps: seq<Param>)
    requires DistinctIds(ps)
    ensures |Ids(ps)| == |ps|
  {
    if |ps| > 0 {
      IdsOfDistinct(ps[1..]);
      assert Ids(ps) == {ps[0].id as int} + Ids(ps[1..]);
      IdsIndex(ps[1..]);
      assert forall m :: 0 <= m < |ps[1..]| ==> ps[1..][m].id != ps[0].id;
      assert ps[0].id as int !in Ids(ps[1..]);
    }
  }

  /** The integers 0 .. n-1. */
  function Range(n: nat): set<int>
  {
    if n == 0 then {} else Range(n - 1) + {n - 1}
  }

  lemma {:induction false} RangeCard(n: nat)
    ensures |Range(n)| == n
    ensures forall x :: x in Range(n) <==> 0 <= x < n
  {
    if n > 0 {
      RangeCard(n - 1);
    }
  }

  lemma {:induction false} SubsetCard(a: set<int>, b: set<int>)
    requires a <= b
    ensures |a| <= |b|
  {
    assert b == a + (b - a);
  }

  /** A dictionary keyed by ushort holds at most 65536 entries. */
  lemma ParametersBound(ps: Parameters)
    ensures |ps| <= 0x1_0000
  {
    IdsOfDistinct(ps);
    RangeCard(0x1_0000);
    SubsetCard(Ids(ps), Range(0x1_0000));
  }

  // ---------------------------------------------------------------------
  // Parse and ToFrame
  // ---------------------------------------------------------------------

  datatype SettingsFrame = SettingsFrame(parameters: Parameters)

  /** The 6-octet unit of one parameter: 16-bit identifier, 32-bit value, big-endian. */
  function Unit(p: Param): (r: Bytes)
    ensures |r| == 6
  {
    ToBE16(p.id) + ToBE32(p.value)
  }

  /** The payload ToFrame writes: the units in enumeration order. */
  function Encode(ps: seq<Param>): (r: Bytes)
    ensures |r| == 6 * |ps|
  {
    if |ps| == 0 then [] else Encode(ps[..|ps| - 1]) + Unit(ps[|ps| - 1])
  }

  /** The dictionary Parse's loop builds from a payload, unit by unit. */
  function ParamsOf(payload: Bytes): (r: seq<Param>)
    requires |payload| % 6 == 0
  {
    if |payload| == 0 then []
    else
      var k := |payload| - 6;
      Put(ParamsOf(payload[..k]), BE16(payload, k), BE32(payload, k + 2))
  }

  lemma {:induction false} ParamsOfDistinct(payload: Bytes)
    requires |payload| % 6 == 0
    ensures DistinctIds(ParamsOf(payload))
  {
    if |payload| > 0 {
      var k := |payload| - 6;
      ParamsOfDistinct(payload[..k]);
      PutDistinct(ParamsOf(payload[..k]), BE16(payload, k), BE32(payload, k + 2));
    }
  }

  /** The value of the last unit in the payload carrying identifier `id`. */
  function LastUnit(payload: Bytes, id: uint16): Option<uint32>
    requires |payload| % 6 == 0
  {
    if |payload| == 0 then None
    else if BE16(payload, |payload| - 6) == id then Some(BE32(payload, |payload| - 4))
    else LastUnit(payload[..|payload| - 6], id)
  }

  /** For a duplicated identifier the last unit wins. */
  lemma {:induction false} ParamsLastWins(payload: Bytes, id: uint16)
    requires |payload| % 6 == 0
    ensures Lookup(ParamsOf(payload), id) == LastUnit(payload, id)
  {
    if |payload| > 0 {
      var k := |payload| - 6;
      ParamsLastWins(payload[..k], id);
      PutLookup(ParamsOf(payload[..k]), BE16(payload, k), BE32(payload, k + 2), id);
    }
  }

  function ParseSpec(f: Frame): (r: Result<SettingsFrame>)
    requires f.Consistent()
  {
    if f.frameType != SETTINGS then Err(ArgumentError)
    else if f.streamId != 0 then Err(InvalidOperation)
    else if f.Ack() then
      if f.length != 0 then Err(InvalidOperation) else Ok(SettingsFrame([]))
    else if f.length % 6 != 0 then Err(InvalidOperation)
    else
      ParamsOfDistinct(f.payload);
      Ok(SettingsFrame(ParamsOf(f.payload)))
  }

  /** SettingsFrame.Parse. */
  method Parse(f: Frame) returns (r: Result<SettingsFrame>)
    requires f.Consistent()
    ensures r == ParseSpec(f)
  {
    if f.frameType != SETTINGS {
      return Err(ArgumentError);
    }
    if f.streamId != 0 {
      return Err(InvalidOperation);
    }
    if f.flags & ACK != 0 {
      if f.length != 0 {
        return Err(InvalidOperation);
      }
      return Ok(SettingsFrame([]));
    }
    if f.length % 6 != 0 {
      return Err(InvalidOperation);
    }
    var parameters := ReadParameters(f.payload);
    ParamsOfDistinct(f.payload);
    return Ok(SettingsFrame(parameters));
  }

  /** The loop of Parse: each 6-octet unit is stored with `Parameters[id] = value`. */
  method ReadParameters(payload: Bytes) returns (parameters: seq<Param>)
    requires |payload| % 6 == 0
    ensures parameters == ParamsOf(payload)
  {
    parameters := [];
    var i := 0;
    while i < |payload|
      invariant i <= |payload| && i % 6 == 0
      invariant parameters == ParamsOf(payload[..i])
    {
      var id := BE16(payload, i);
      var value := BE32(payload, i + 2);
      parameters := Put(parameters, id, value);
      assert payload[..i + 6][..i] == payload[..i];
      assert BE16(payload[..i + 6], i) == id && BE32(payload[..i + 6], i + 2) == value;
      i := i + 6;
    }
    assert payload[..i] == payload;
  }

  function ToFrameSpec(sf: SettingsFrame, ack: bool): (r: Frame)
  {
    var payload := if ack then [] else Encode(sf.parameters);
    ParametersBound(sf.parameters);
    Frame(|payload|, SETTINGS, if ack then ACK else 0, 0, payload)
  }

  /** The SETTINGS acknowledgement: `new SettingsFrame().ToFrame(ack: true)`. */
  function AckFrame(): Frame
  {
    ToFrameSpec(SettingsFrame([]), true)
  }

  /** SettingsFrame.ToFrame: stream 0, ACK iff `ack`, and a unit per parameter unless it is an ACK. */
  method ToFrame(sf: SettingsFrame, ack: bool) returns (f: Frame)
    ensures f == ToFrameSpec(sf, ack)
  {
    var ps := sf.parameters;
    var payload: array<byte>;
    if ack {
      payload := new byte[0];
    } else {
      ParametersBound(ps);
      payload := new byte[|ps| * 6];
      var offset := 0;
      var i := 0;
      while i < |ps|
        invariant i <= |ps| && offset == 6 * i
        invariant payload[..offset] == Encode(ps[..i])
      {
        // WriteUInt16BigEndian(id), then WriteUInt32BigEndian(value).
        var unit := Unit(ps[i]);
        ghost var before := payload[..];
        forall j | 0 <= j < 6 {
          payload[offset + j] := unit[j];
        }
        assert payload[..offset] == before[..offset];
        assert ps[..i + 1][..i] == ps[..i];
        assert payload[..offset + 6] == payload[..offset] + Unit(ps[i]);
        offset := offset + 6;
        i := i + 1;
      }
      assert ps[..i] == ps;
    }
    ParametersBound(ps);
    f := Frame(payload.Length, SETTINGS, if ack then ACK else 0, 0, payload[..]);
  }

  /** An encoding is a whole number of units. */
  lemma {:induction false} EncodeUnits(ps: seq<Param>)
    ensures |Encode(ps)| % 6 == 0
  {
    if |ps| > 0 {
      EncodeUnits(ps[..|ps| - 1]);
    }
  }

  /** The last unit of an encoding, and what precedes it. */
  lemma EncodeLast(ps: seq<Param>)
    requires |ps| > 0
    ensures var e := Encode(ps); var k := |e| - 6;
      e[..k] == Encode(ps[..|ps| - 1]) && BE16(e, k) == ps[|ps| - 1].id && BE32(e, k + 2) == ps[|ps| - 1].value
  {
    var init := Encode(ps[..|ps| - 1]);
    var last := ps[|ps| - 1];
    BE16At(init, last.id, ToBE32(last.value));
    BE32At(init + ToBE16(last.id), last.value, []);
    assert Encode(ps) == init + ToBE16(last.id) + ToBE32(last.value) + [];
  }

  /** Putting the last entry of a dictionary back onto the others rebuilds it. */
  lemma PutLast(ps: seq<Param>)
    requires |ps| > 0 && DistinctIds(ps)
    ensures DistinctIds(ps[..|ps| - 1])
    ensures Put(ps[..|ps| - 1], ps[|ps| - 1].id, ps[|ps| - 1].value) == ps
  {
    var init := ps[..|ps| - 1];
    var last := ps[|ps| - 1];
    assert forall i :: 0 <= i < |init| ==> init[i] == ps[i];
    IdsIndex(init);
    assert last.id as int !in Ids(init);
    PutDistinct(init, last.id, last.value);
    assert init + [last] == ps;
  }

  /** Reading the units back one by one rebuilds the dictionary, in the same order. */
  lemma {:induction false} ParamsOfEncode(ps: seq<Param>)
    requires DistinctIds(ps)
    ensures ParamsOf(Encode(ps)) == ps
  {
    if |ps| > 0 {
      var init := ps[..|ps| - 1];
      var last := ps[|ps| - 1];
      var e := Encode(ps);
      var k := |e| - 6;
      EncodeUnits(ps);
      EncodeUnits(ps[..|ps| - 1]);
      EncodeLast(ps);
      PutLast(ps);
      ParamsOfEncode(init);
      calc {
        ParamsOf(e);
        Put(ParamsOf(e[..k]), BE16(e, k), BE32(e, k + 2));
        { assert e[..k] == Encode(init) && BE16(e, k) == last.id && BE32(e, k + 2) == last.value; }
        Put(ParamsOf(Encode(init)), last.id, last.value);
        Put(init, last.id, last.value);
        ps;
      }
    }
  }

  /** Parse(ToFrame()) recovers the same parameters in the same order; an ACK parses as empty. */
  lemma ParseToFrame(sf: SettingsFrame, ack: bool)
    ensures ToFrameSpec(sf, ack).Consistent()
    ensures ParseSpec(ToFrameSpec(sf, ack)) == Ok(if ack then SettingsFrame([]) else sf)
  {
    var f := ToFrameSpec(sf, ack);
    if ack {
      assert f == Frame(0, SETTINGS, ACK, 0, []);
    } else {
      assert f == Frame(6 * |sf.parameters|, SETTINGS, 0, 0, Encode(sf.parameters));
      assert !f.Ack();
      EncodeUnits(sf.parameters);
      ParamsOfEncode(sf.parameters);
    }
  }

  /** Parse accepts exactly the well-formed frames; an ACK carries no parameters. */
  lemma ParseAccepts(f: Frame)
    requires f.Consistent()
    ensures ParseSpec(f).Ok? <==>
      f.frameType == SETTINGS && f.streamId == 0 && (if f.Ack() then f.length == 0 else f.length % 6 == 0)
    ensures ParseSpec(f).Ok? ==> |ParseSpec(f).value.parameters| <= f.length / 6
    ensures ParseSpec(f).Ok? && f.Ack() ==> ParseSpec(f).value.parameters == []
  {
    if ParseSpec(f).Ok? && !f.Ack() {
      ParamsOfLength(f.payload);
    }
  }

  lemma {:induction false} ParamsOfLength(payload: Bytes)
    requires |payload| % 6 == 0
    ensures |ParamsOf(payload)| <= |payload| / 6
  {
    if |payload| > 0 {
      ParamsOfLength(payload[..|payload| - 6]);
    }
  }

  // ---------------------------------------------------------------------
  // ApplyTo
  // ---------------------------------------------------------------------

  /** The values the bounds of section 6.5.2 of RFC 7540 allow; unknown identifiers are always allowed. */
  predicate ValidParam(p: Param)
  {
    && (p.id == SETTINGS_ENABLE_PUSH ==> p.value <= 1)
    && (p.id == SETTINGS_INITIAL_WINDOW_SIZE ==> p.value <= 0x7FFF_FFFF)
    && (p.id == SETTINGS_MAX_FRAME_SIZE ==> 16384 <= p.value <= 16777215)
  }

  /** One case of the switch in ApplyTo. */
  function ApplyOne(v: Values, p: Param): Result<Values>
  {
    if p.id == SETTINGS_HEADER_TABLE_SIZE then Ok(v.(headerTableSize := p.value))
    else if p.id == SETTINGS_ENABLE_PUSH then
      if p.value > 1 then Err(InvalidOperation) else Ok(v.(enablePush := p.value == 1))
    else if p.id == SETTINGS_MAX_CONCURRENT_STREAMS then Ok(v.(maxConcurrentStreams := p.value))
    else if p.id == SETTINGS_INITIAL_WINDOW_SIZE then
      if p.value > 0x7FFF_FFFF then Err(InvalidOperation) else Ok(v.(initialWindowSize := p.value))
    else if p.id == SETTINGS_MAX_FRAME_SIZE then
      if p.value < 16384 || p.value > 16777215 then Err(InvalidOperation) else Ok(v.(maxFrameSize := p.value))
    else if p.id == SETTINGS_MAX_HEADER_LIST_SIZE then Ok(v.(maxHeaderListSize := p.value))
    else Ok(v)
  }

  /**
   * The settings after applying the entries in order, and whether an entry
   * threw; the entries before the one that threw stay applied.
   */
  function ApplySpec(ps: seq<Param>, v: Values): (Values, Result<()>)
  {
    if |ps| == 0 then (v, Ok(()))
    else
      var (w, e) := ApplySpec(ps[..|ps| - 1], v);
      if e.Err? then (w, e)
      else match ApplyOne(w, ps[|ps| - 1])
        case Ok(x) => (x, Ok(()))
        case Err(k) => (w, Err(k))
  }

  /** SettingsFrame.ApplyTo: updates the properties in place, entry by entry. */
  method ApplyTo(sf: SettingsFrame, settings: Settings) returns (r: Result<()>)
    modifies settings
    ensures (settings.Value(), r) == ApplySpec(sf.parameters, old(settings.Value()))
  {
    var ps := sf.parameters;
    var i := 0;
    while i < |ps|
      invariant i <= |ps|
      invariant ApplySpec(ps[..i], old(settings.Value())) == (settings.Value(), Ok(()))
    {
      var p := ps[i];
      assert ps[..i + 1][..i] == ps[..i];
      if p.id == SETTINGS_HEADER_TABLE_SIZE {
        settings.headerTableSize := p.value;
      } else if p.id == SETTINGS_ENABLE_PUSH {
        if p.value > 1 {
          ApplyErrSticky(ps, old(settings.Value()), i + 1);
          return Err(InvalidOperation);
        }
        settings.enablePush := p.value == 1;
      } else if p.id == SETTINGS_MAX_CONCURRENT_STREAMS {
        settings.maxConcurrentStreams := p.value;
      } else if p.id == SETTINGS_INITIAL_WINDOW_SIZE {
        if p.value > 0x7FFF_FFFF {
          ApplyErrSticky(ps, old(settings.Value()), i + 1);
          return Err(InvalidOperation);
        }
        settings.initialWindowSize := p.value;
      } else if p.id == SETTINGS_MAX_FRAME_SIZE {
        if p.value < 16384 || p.value > 16777215 {
          ApplyErrSticky(ps, old(settings.Value()), i + 1);
          return Err(InvalidOperation);
        }
        settings.maxFrameSize := p.value;
      } else if p.id == SETTINGS_MAX_HEADER_LIST_SIZE {
        settings.maxHeaderListSize := p.value;
      }
      i := i + 1;
    }
    assert ps[..i] == ps;
    r := Ok(());
  }

  /** Once an entry has thrown, the later entries are not applied. */
  lemma {:induction false} ApplyErrSticky(ps: seq<Param>, v: Values, n: nat)
    requires n <= |ps| && ApplySpec(ps[..n], v).1.Err?
    ensures ApplySpec(ps, v) == ApplySpec(ps[..n], v)
  {
    if n < |ps| {
      assert ps[..|ps| - 1][..n] == ps[..n];
      ApplyErrSticky(ps[..|ps| - 1], v, n);
    } else {
      assert ps[..n] == ps;
    }
  }

  /** The property a known identifier sets, ENABLE_PUSH read as 0 or 1; None for unknown identifiers. */
  function Field(v: Values, id: uint16): Option<nat>
  {
    if id == SETTINGS_HEADER_TABLE_SIZE then Some(v.headerTableSize)
    else if id == SETTINGS_ENABLE_PUSH then Some(if v.enablePush then 1 else 0)
    else if id == SETTINGS_MAX_CONCURRENT_STREAMS then Some(v.maxConcurrentStreams)
    else if id == SETTINGS_INITIAL_WINDOW_SIZE then Some(v.initialWindowSize)
    else if id == SETTINGS_MAX_FRAME_SIZE then Some(v.maxFrameSize)
    else if id == SETTINGS_MAX_HEADER_LIST_SIZE then Some(v.maxHeaderListSize)
    else None
  }

  /** The value of the last entry with identifier `id`. */
  function LastOf(ps: seq<Param>, id: uint16): Option<uint32>
  {
    if |ps| == 0 then None
    else if ps[|ps| - 1].id == id then Some(ps[|ps| - 1].value)
    else LastOf(ps[..|ps| - 1], id)
  }

  /** ApplyTo throws iff some entry is out of its range. */
  lemma {:induction false} ApplyFailsIff(ps: seq<Param>, v: Values)
    ensures ApplySpec(ps, v).1.Ok? <==> forall i :: 0 <= i < |ps| ==> ValidParam(ps[i])
  {
    if |ps| > 0 {
      ApplyFailsIff(ps[..|ps| - 1], v);
      assert forall i :: 0 <= i < |ps| - 1 ==> ps[..|ps| - 1][i] == ps[i];
    }
  }

  /** When entry `i` is the first out of range, the entries before it are applied and the rest are not. */
  lemma {:induction false} ApplyStopsAtFirstInvalid(ps: seq<Param>, v: Values, i: nat)
    requires i < |ps| && !ValidParam(ps[i])
    requires forall j :: 0 <= j < i ==> ValidParam(ps[j])
    ensures ApplySpec(ps, v) == (ApplySpec(ps[..i], v).0, Err(InvalidOperation))
  {
    if i == |ps| - 1 {
      assert ps[..|ps| - 1] == ps[..i];
      ApplyFailsIff(ps[..i], v);
    } else {
      assert ps[..|ps| - 1][..i] == ps[..i];
      ApplyStopsAtFirstInvalid(ps[..|ps| - 1], v, i);
    }
  }

  /**
   * With every entry in range, each known property takes the value of the
   * last entry for its identifier, and keeps its old value when there is none.
   */
  lemma {:induction false} ApplyLastWins(ps: seq<Param>, v: Values, id: uint16)
    requires forall i :: 0 <= i < |ps| ==> ValidParam(ps[i])
    requires Field(v, id).Some?
    ensures Field(ApplySpec(ps, v).0, id) == if LastOf(ps, id).Some? then Some(LastOf(ps, id).value as nat) else Field(v, id)
  {
    if |ps| > 0 {
      ApplyLastWins(ps[..|ps| - 1], v, id);
      ApplyFailsIff(ps[..|ps| - 1], v);
      assert forall i :: 0 <= i < |ps| - 1 ==> ps[..|ps| - 1][i] == ps[i];
    }
  }

  /** A property whose identifier does not occur keeps its value, even when ApplyTo throws. */
  lemma {:induction false} ApplyAbsentUnchanged(ps: seq<Param>, v: Values, id: uint16)
    requires LastOf(ps, id).None?
    ensures Field(ApplySpec(ps, v).0, id) == Field(v, id)
  {
    if |ps| > 0 {
      ApplyAbsentUnchanged(ps[..|ps| - 1], v, id);
    }
  }

  /** An entry with an unknown identifier changes nothing. */
  lemma ApplyUnknownIgnored(ps: seq<Param>, v: Values, p: Param)
    requires Field(v, p.id).None?
    ensures ApplySpec(ps + [p], v) == ApplySpec(ps, v)
  {
    assert (ps + [p])[..|ps|] == ps;
  }
}
