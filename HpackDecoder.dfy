/**
 * The HPACK decoder (RFC 7541, section 6): a header block is a sequence of
 * representations told apart by their first octet -- indexed (1xxxxxxx),
 * literal with incremental indexing (01xxxxxx), dynamic table size update
 * (001xxxxx), and literal never indexed or without indexing (0001xxxx and
 * 0000xxxx), which this decoder treats alike. The Huffman string decoder is
 * not part of the model; it is the `huffman` parameter.
 */
module HpackDecoder {
  import opened Common
  import opened HpackStaticTable
  import HpackInteger
  import D = HpackDynamicTable

  /** The dynamic table's entries and maximum size. */
  datatype TableState = TableState(entries: seq<HeaderField>, maxSize: int32)

  predicate Fits(t: TableState)
  {
    D.Fits(t.entries, t.maxSize)
  }

  /** `GetIndexedHeader`: indices 1..61 name the static table, 62 on the dynamic table, newest first. */
  function GetIndexedHeader(entries: seq<HeaderField>, index: int): (r: Result<HeaderField>)
    ensures r.Ok? <==> 1 <= index <= |Table| + |entries|
    ensures r.Ok? && index <= |Table| ==> r.value == Table[index - 1]
    ensures r.Ok? && index > |Table| ==> r.value == entries[index - |Table| - 1]
    ensures index <= 0 ==> r == Err(ArgumentError)
    ensures index > |Table| + |entries| ==> r == Err(ArgumentOutOfRange)
  {
    if index <= 0 then Err(ArgumentError)
    else if index <= Count() then GetEntry(index)
    else D.GetEntry(entries, index - Count() - 1)
  }

  /**
   * `DecodeString` (RFC 7541, section 5.2): the length under a 7-bit prefix,
   * then that many octets, Huffman-decoded when the high bit of the first
   * octet is set. The bound check adds in 32 bits; a length the check lets
   * through by wrapping fails at the slice.
   */
  function DecodeStringSpec(huffman: Bytes -> HString, buf: Bytes): (r: Result<(HString, nat)>)
    requires |buf| < TWO31
    ensures r.Ok? ==> 1 <= r.value.1 <= |buf|
    ensures buf == [] ==> r == Err(InvalidOperation)
  {
    if |buf| == 0 then Err(InvalidOperation)
    else
      match HpackInteger.DecodeSpec(buf, 7)
      case Err(e) => Err(e)
      case Ok((length, consumed)) =>
        if Wrap32(consumed + length) > |buf| then Err(InvalidOperation)
        else if length < 0 || consumed + length > |buf| then Err(ArgumentOutOfRange)
        else
          var octets: HString := buf[consumed..consumed + length];
          var value: HString := if buf[0] >= 0x80 then huffman(octets) else octets;
          var total: nat := consumed + length;
          Ok((value, total))
  }

  /** The name of a literal and the offset after it: from a table when the index is positive, else a string literal. */
  function LiteralName(huffman: Bytes -> HString, entries: seq<HeaderField>, buf: Bytes, nameIndex: int, consumed: nat)
    : (r: Result<(HString, nat)>)
    requires consumed <= |buf| < TWO31
    ensures r.Ok? ==> consumed <= r.value.1 <= |buf|
  {
    if nameIndex > 0 then
      match GetIndexedHeader(entries, nameIndex)
      case Err(e) => Err(e)
      case Ok(h) => Ok((h.name, consumed))
    else
      match DecodeStringSpec(huffman, buf[consumed..])
      case Err(e) => Err(e)
      case Ok((n, nameConsumed)) => Ok((n, consumed + nameConsumed))
  }

  /**
   * `DecodeLiteralHeader`: the name index under the given prefix (0 or a
   * negative value means a literal name follows), then the value; with
   * incremental indexing the header then enters the dynamic table.
   */
  function LiteralSpec(huffman: Bytes -> HString, t: TableState, buf: Bytes, prefixBits: int32, addToTable: bool)
    : (r: Result<(HeaderField, nat, TableState)>)
    requires |buf| < TWO31
    ensures r.Ok? ==> 1 <= r.value.1 <= |buf|
    ensures r.Ok? ==> (r.value.2 ==
      if addToTable then TableState(D.Added(t.entries, t.maxSize, r.value.0), t.maxSize) else t)
  {
    match HpackInteger.DecodeSpec(buf, prefixBits)
    case Err(e) => Err(e)
    case Ok((nameIndex, consumed)) =>
      match LiteralName(huffman, t.entries, buf, nameIndex, consumed)
      case Err(e) => Err(e)
      case Ok((n, offset)) =>
        match DecodeStringSpec(huffman, buf[offset..])
        case Err(e) => Err(e)
        case Ok((v, valueConsumed)) =>
          var h := HeaderField(n, v);
          Ok((h, offset + valueConsumed,
              if addToTable then TableState(D.Added(t.entries, t.maxSize, h), t.maxSize) else t))
  }

  /** One decoded representation: its header (none for a size update), the octets it took, the table after it. */
  datatype Field = Field(header: Option<HeaderField>, consumed: nat, table: TableState)

  /** The representation at the start of a non-empty buffer. */
  function FieldSpec(huffman: Bytes -> HString, t: TableState, buf: Bytes): (r: Result<Field>)
    requires 0 < |buf| < TWO31
    ensures r.Ok? ==> 1 <= r.value.consumed <= |buf|
    ensures r.Ok? && Fits(t) ==> Fits(r.value.table)
  {
    if buf[0] >= 0x80 then
      match HpackInteger.DecodeSpec(buf, 7)
      case Err(e) => Err(e)
      case Ok((index, consumed)) =>
        match GetIndexedHeader(t.entries, index)
        case Err(e) => Err(e)
        case Ok(h) => Ok(Field(Some(h), consumed, t))
    else if buf[0] >= 0x40 then
      match LiteralSpec(huffman, t, buf, 6, true)
      case Err(e) => Err(e)
      case Ok((h, consumed, t')) => Ok(Field(Some(h), consumed, t'))
    else if buf[0] >= 0x20 then
      match HpackInteger.DecodeSpec(buf, 5)
      case Err(e) => Err(e)
      case Ok((newSize, consumed)) =>
        Ok(Field(None, consumed, TableState(D.Evicted(t.entries, newSize), newSize)))
    else
      match LiteralSpec(huffman, t, buf, 4, false)
      case Err(e) => Err(e)
      case Ok((h, consumed, t')) => Ok(Field(Some(h), consumed, t'))
  }

  function Headers(h: Option<HeaderField>): seq<HeaderField>
  {
    if h.Some? then [h.value] else []
  }

  /** The headers decoded before a result, put in front of it; an error stays an error. */
  function Prefixed(hs: seq<HeaderField>, r: (Result<seq<HeaderField>>, TableState)): (Result<seq<HeaderField>>, TableState)
  {
    (if r.0.Ok? then Ok(hs + r.0.value) else r.0, r.1)
  }

  /**
   * `Decode`: the headers of a whole block and the table after it. An
   * exception ends decoding; the table keeps the changes made before it.
   */
  function DecodeBlock(huffman: Bytes -> HString, t: TableState, block: Bytes): (r: (Result<seq<HeaderField>>, TableState))
    requires |block| < TWO31
    ensures Fits(t) ==> Fits(r.1)
    decreases |block|
  {
    if block == [] then (Ok([]), t)
    else
      match FieldSpec(huffman, t, block)
      case Err(e) => (Err(e), t)
      case Ok(f) => Prefixed(Headers(f.header), DecodeBlock(huffman, f.table, block[f.consumed..]))
  }

  lemma PrefixedEmpty(r: (Result<seq<HeaderField>>, TableState))
    ensures Prefixed([], r) == r
  {
    if r.0.Ok? {
      assert [] + r.0.value == r.0.value;
    }
  }

  lemma PrefixedTwice(a: seq<HeaderField>, b: seq<HeaderField>, r: (Result<seq<HeaderField>>, TableState))
    ensures Prefixed(a, Prefixed(b, r)) == Prefixed(a + b, r)
  {
    if r.0.Ok? {
      ConcatAssoc(a, b, r.0.value);
    }
  }

  /** Decoding goes on after a representation that decodes. */
  lemma DecodeStep(huffman: Bytes -> HString, t: TableState, block: Bytes, offset: nat, hs: seq<HeaderField>, f: Field)
    requires offset < |block| < TWO31 && FieldSpec(huffman, t, block[offset..]) == Ok(f)
    ensures offset + f.consumed <= |block|
    ensures Prefixed(hs, DecodeBlock(huffman, t, block[offset..])) ==
      Prefixed(hs + Headers(f.header), DecodeBlock(huffman, f.table, block[offset + f.consumed..]))
  {
    assert block[offset..][f.consumed..] == block[offset + f.consumed..];
    PrefixedTwice(hs, Headers(f.header), DecodeBlock(huffman, f.table, block[offset + f.consumed..]));
  }

  /** Decoding stops at the first representation that fails, with the table as it was then. */
  lemma DecodeStop(huffman: Bytes -> HString, t: TableState, buf: Bytes, hs: seq<HeaderField>)
    requires 0 < |buf| < TWO31 && FieldSpec(huffman, t, buf).Err?
    ensures Prefixed(hs, DecodeBlock(huffman, t, buf)) == (Err(FieldSpec(huffman, t, buf).failure), t)
  {
  }

  class Decoder {
    const table: D.DynamicTable
    const huffman: Bytes -> HString

    ghost predicate Valid()
      reads this, table
    {
      table.Valid()
    }

    function State(): TableState
      reads this, table
    {
      TableState(table.entries, table.maxSize)
    }

    constructor (maxDynamicTableSize: int32, huffman: Bytes -> HString)
      ensures Valid() && fresh(table) && this.huffman == huffman
      ensures table.entries == [] && table.maxSize == maxDynamicTableSize
    {
      table := new D.DynamicTable(maxDynamicTableSize);
      this.huffman := huffman;
    }

    /** The `MaxDynamicTableSize` setter: forwards to the table, which evicts. */
    method SetMaxDynamicTableSize(value: int32)
      requires Valid()
      modifies table
      ensures Valid() && table.maxSize == value
      ensures table.entries == D.Evicted(old(table.entries), value)
    {
      table.SetMaxSize(value);
    }

    method Decode(headerBlock: Bytes) returns (r: Result<seq<HeaderField>>)
      requires Valid() && |headerBlock| < TWO31
      modifies table
      ensures Valid()
      ensures (r, State()) == DecodeBlock(huffman, old(State()), headerBlock)
    {
      var headers: seq<HeaderField> := [];
      var offset := 0;
      ghost var t := State();
      ghost var goal := DecodeBlock(huffman, t, headerBlock);
      assert goal == DecodeBlock(huffman, old(State()), headerBlock);
      assert headerBlock[offset..] == headerBlock;
      PrefixedEmpty(goal);
      while offset < |headerBlock|
        invariant 0 <= offset <= |headerBlock|
        invariant Valid()
        invariant t == State()
        invariant goal == Prefixed(headers, DecodeBlock(huffman, t, headerBlock[offset..]))
        decreases |headerBlock| - offset
      {
        var field := DecodeRepresentation(headerBlock[offset..]);
        if field.Err? {
          DecodeStop(huffman, t, headerBlock[offset..], headers);
          return Err(field.failure);
        }
        var f := field.value;
        DecodeStep(huffman, t, headerBlock, offset, headers, f);
        assert goal == Prefixed(headers + Headers(f.header), DecodeBlock(huffman, f.table, headerBlock[offset + f.consumed..]));
        assert State() == f.table;
        t, offset, headers := f.table, offset + f.consumed, headers + Headers(f.header);
      }
      assert headerBlock[offset..] == [];
      assert headers + [] == headers;
      return Ok(headers);
    }

    /**
     * The body of the loop in `Decode`: one representation at the start of
     * `buffer`, told apart by the bits of its first octet.
     */
    method DecodeRepresentation(buffer: Bytes) returns (r: Result<Field>)
      requires Valid() && 0 < |buffer| < TWO31
      modifies table
      ensures Valid()
      ensures r == FieldSpec(huffman, old(State()), buffer)
      ensures r.Ok? ==> State() == r.value.table
      ensures r.Err? ==> State() == old(State())
    {
      var firstByte := buffer[0];
      AndHigh(firstByte);
      if And(firstByte, 0x80) != 0 {
        var decoded := HpackInteger.Decode(buffer, 7);
        if decoded.Err? {
          return Err(decoded.failure);
        }
        var (index, consumed) := decoded.value;
        var header := GetIndexedHeader(table.entries, index);
        if header.Err? {
          return Err(header.failure);
        }
        return Ok(Field(Some(header.value), consumed, State()));
      }
      AndBelow(firstByte, 0x40);
      if And(firstByte, 0x40) != 0 {
        var literal := DecodeLiteralHeader(buffer, 6, true);
        if literal.Err? {
          return Err(literal.failure);
        }
        return Ok(Field(Some(literal.value.0), literal.value.1, State()));
      }
      AndBelow(firstByte, 0x20);
      if And(firstByte, 0x20) != 0 {
        var decoded := HpackInteger.Decode(buffer, 5);
        if decoded.Err? {
          return Err(decoded.failure);
        }
        var (newSize, consumed) := decoded.value;
        table.SetMaxSize(newSize);
        return Ok(Field(None, consumed, State()));
      }
      AndBelow(firstByte, 0x10);
      if And(firstByte, 0x10) != 0 {
        var literal := DecodeLiteralHeader(buffer, 4, false);
        if literal.Err? {
          return Err(literal.failure);
        }
        return Ok(Field(Some(literal.value.0), literal.value.1, State()));
      } else {
        var literal := DecodeLiteralHeader(buffer, 4, false);
        if literal.Err? {
          return Err(literal.failure);
        }
        return Ok(Field(Some(literal.value.0), literal.value.1, State()));
      }
    }

    /** Decodes one literal representation; with `addToTable` the header enters the dynamic table. */
    method DecodeLiteralHeader(buffer: Bytes, prefixBits: int32, addToTable: bool) returns (r: Result<(HeaderField, nat)>)
      requires Valid() && |buffer| < TWO31
      modifies table
      ensures Valid()
      ensures var spec := LiteralSpec(huffman, old(State()), buffer, prefixBits, addToTable);
        r == (if spec.Ok? then Ok((spec.value.0, spec.value.1)) else Err(spec.failure)) &&
        State() == (if spec.Ok? then spec.value.2 else old(State()))
    {
      ghost var spec := LiteralSpec(huffman, State(), buffer, prefixBits, addToTable);
      var decoded := HpackInteger.Decode(buffer, prefixBits);
      if decoded.Err? {
        assert spec == Err(decoded.failure);
        return Err(decoded.failure);
      }
      var (nameIndex, consumed) := decoded.value;
      ghost var nameSpec := LiteralName(huffman, table.entries, buffer, nameIndex, consumed);
      var offset := consumed;
      var name: HString;
      if nameIndex > 0 {
        var entry := GetIndexedHeader(table.entries, nameIndex);
        if entry.Err? {
          assert nameSpec == Err(entry.failure);
          return Err(entry.failure);
        }
        name := entry.value.name;
      } else {
        var decodedName := DecodeString(buffer[offset..]);
        if decodedName.Err? {
          assert nameSpec == Err(decodedName.failure);
          return Err(decodedName.failure);
        }
        name := decodedName.value.0;
        offset := offset + decodedName.value.1;
      }
      assert nameSpec == Ok((name, offset));
      var decodedValue := DecodeString(buffer[offset..]);
      if decodedValue.Err? {
        assert spec == Err(decodedValue.failure);
        return Err(decodedValue.failure);
      }
      var value := decodedValue.value.0;
      offset := offset + decodedValue.value.1;
      assert spec.Ok? && spec.value.0 == HeaderField(name, value) && spec.value.1 == offset;
      if addToTable {
        table.Add(name, value);
      }
      return Ok((HeaderField(name, value), offset));
    }

    method DecodeString(buffer: Bytes) returns (r: Result<(HString, nat)>)
      requires |buffer| < TWO31
      ensures r == DecodeStringSpec(huffman, buffer)
    {
      if |buffer| == 0 {
        return Err(InvalidOperation);
      }
      var firstByte := buffer[0];
      AndHigh(firstByte);
      var huffmanEncoded := And(firstByte, 0x80) != 0;
      var decoded := HpackInteger.Decode(buffer, 7);
      if decoded.Err? {
        return Err(decoded.failure);
      }
      var (length, consumed) := decoded.value;
      var offset := consumed;
      var end := Wrap32(offset + length);
      if end > |buffer| {
        return Err(InvalidOperation);
      }
      if length < 0 || offset + length > |buffer| {
        return Err(ArgumentOutOfRange);
      }
      var stringBytes: HString := buffer[offset..offset + length];
      var value: HString := if huffmanEncoded then huffman(stringBytes) else stringBytes;
      var total: nat := offset + length;
      return Ok((value, total));
    }
  }
}
