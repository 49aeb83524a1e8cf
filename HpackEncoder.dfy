/**
 * The HPACK encoder (RFC 7541, section 6): each header goes out as an
 * indexed field when the static or the dynamic table holds it exactly, and
 * otherwise as a literal with incremental indexing (name by index when a
 * table knows the name), after which it enters the dynamic table. Strings are
 * never Huffman-coded.
 */
module HpackEncoder {
  import opened Common
  import opened HpackStaticTable
  import HpackInteger
  import D = HpackDynamicTable

  /** RFC 7541, section 5.2 with H clear: the length under a 7-bit prefix, then the octets. */
  function StringOctets(s: HString): (r: Bytes)
    ensures |r| > |s| && r[|r| - |s|..] == s
  {
    HpackInteger.EncodeOctets(|s|, 7, 0) + s
  }

  /** Whether a header is sent as an index, leaving the dynamic table as it was. */
  predicate Indexed(entries: seq<HeaderField>, h: HeaderField)
  {
    ExactIndex(h.name, h.value) > 0 || D.Find(entries, h.name, h.value).1
  }

  /** The name index a literal carries: static first, then dynamic (offset by 61), else 0. */
  function LiteralNameIndex(entries: seq<HeaderField>, name: Bytes): (r: nat)
    ensures r <= |Table| + |entries|
  {
    var n := NameIndex(name);
    if n != 0 then n
    else
      var dyn := D.Find(entries, name, []).0;
      if dyn >= 0 then Count() + dyn + 1 else 0
  }

  /** A literal's name index points at an entry with the same name (ignoring case), and 0 means no table knows the name. */
  lemma LiteralNameIndexFinds(entries: seq<HeaderField>, name: Bytes)
    ensures var r := LiteralNameIndex(entries, name);
      (r == 0 ==> ((forall j :: 0 <= j < |Table| ==> !NameMatches(Table[j], name)) &&
         forall j :: 0 <= j < |entries| ==> !NameMatches(entries[j], name))) &&
      (0 < r <= |Table| ==> NameMatches(Table[r - 1], name)) &&
      (r > |Table| ==> NameMatches(entries[r - |Table| - 1], name))
  {
    if NameIndex(name) == 0 {
      var dyn := D.Find(entries, name, []).0;
      D.FindCharacterized(entries, name, []);
      assert dyn >= 0 ==> NameMatches(entries[dyn], name);
    }
  }

  /** The octets EncodeHeader appends for one header. */
  function Representation(entries: seq<HeaderField>, h: HeaderField): (r: Bytes)
    requires |entries| < 0x400_0000
  {
    var staticIndex := ExactIndex(h.name, h.value);
    var (dynamicIndex, exact) := D.Find(entries, h.name, h.value);
    if staticIndex > 0 then HpackInteger.EncodeOctets(staticIndex, 7, 0x80)
    else if exact then HpackInteger.EncodeOctets(Count() + dynamicIndex + 1, 7, 0x80)
    else
      var nameIndex := LiteralNameIndex(entries, h.name);
      (if nameIndex > 0 then HpackInteger.EncodeOctets(nameIndex, 6, 0x40)
       else [0x40] + StringOctets(h.name)) + StringOctets(h.value)
  }

  lemma StaticRepresentation(entries: seq<HeaderField>, h: HeaderField)
    requires |entries| < 0x400_0000 && ExactIndex(h.name, h.value) > 0
    ensures Representation(entries, h) == HpackInteger.EncodeOctets(ExactIndex(h.name, h.value), 7, 0x80)
  {
  }

  lemma DynamicRepresentation(entries: seq<HeaderField>, h: HeaderField)
    requires |entries| < 0x400_0000 && ExactIndex(h.name, h.value) == 0 && D.Find(entries, h.name, h.value).1
    ensures Representation(entries, h) ==
      HpackInteger.EncodeOctets(Count() + D.Find(entries, h.name, h.value).0 + 1, 7, 0x80)
  {
  }

  lemma LiteralRepresentation(entries: seq<HeaderField>, h: HeaderField)
    requires |entries| < 0x400_0000 && !Indexed(entries, h)
    ensures var nameIndex := LiteralNameIndex(entries, h.name);
      Representation(entries, h) ==
        (if nameIndex > 0 then HpackInteger.EncodeOctets(nameIndex, 6, 0x40)
         else [0x40] + StringOctets(h.name)) + StringOctets(h.value)
  {
  }

  /** The dynamic entries after one header: unchanged when indexed, otherwise with the header added. */
  function After(entries: seq<HeaderField>, maxSize: int, h: HeaderField): seq<HeaderField>
  {
    if Indexed(entries, h) then entries else D.Added(entries, maxSize, h)
  }

  /** The whole block for a header list and the dynamic entries it leaves behind. */
  function EncodeBlock(entries: seq<HeaderField>, maxSize: int32, headers: seq<HeaderField>): (r: (Bytes, seq<HeaderField>))
    requires D.Fits(entries, maxSize)
    ensures D.Fits(r.1, maxSize)
    decreases |headers|
  {
    if headers == [] then ([], entries)
    else
      D.CountBound(entries, maxSize);
      var h := headers[0];
      var next := After(entries, maxSize, h);
      var (rest, final) := EncodeBlock(next, maxSize, headers[1..]);
      (Representation(entries, h) + rest, final)
  }

  lemma EncodeBlockStep(entries: seq<HeaderField>, maxSize: int32, headers: seq<HeaderField>, i: nat)
    requires D.Fits(entries, maxSize) && i < |headers|
    ensures |entries| < 0x400_0000
    ensures var next := After(entries, maxSize, headers[i]);
      var rest := EncodeBlock(next, maxSize, headers[i + 1..]);
      EncodeBlock(entries, maxSize, headers[i..]) == (Representation(entries, headers[i]) + rest.0, rest.1)
  {
    D.CountBound(entries, maxSize);
    assert headers[i..][0] == headers[i] && headers[i..][1..] == headers[i + 1..];
  }

  /**
   * RFC 7541, sections 6.1 and 6.2.1: an indexed header starts with the high
   * bit set, a literal with the pattern 01, and only a literal changes the
   * dynamic table.
   */
  lemma RepresentationKind(entries: seq<HeaderField>, maxSize: int, h: HeaderField)
    requires |entries| < 0x400_0000
    ensures Indexed(entries, h) ==> Representation(entries, h)[0] >= 0x80
    ensures !Indexed(entries, h) ==> 0x40 <= Representation(entries, h)[0] < 0x80
    ensures Indexed(entries, h) ==> After(entries, maxSize, h) == entries
  {
    Pow2Small();
    var staticIndex := ExactIndex(h.name, h.value);
    var (dynamicIndex, exact) := D.Find(entries, h.name, h.value);
    D.FindCharacterized(entries, h.name, h.value);
    if staticIndex > 0 {
      HpackInteger.FirstOctetRange(staticIndex, 7, 0x80);
    } else if exact {
      HpackInteger.FirstOctetRange(Count() + dynamicIndex + 1, 7, 0x80);
    } else {
      var nameIndex := LiteralNameIndex(entries, h.name);
      if nameIndex > 0 {
        HpackInteger.FirstOctetRange(nameIndex, 6, 0x40);
      }
    }
  }

  class Encoder {
    const table: D.DynamicTable

    ghost predicate Valid()
      reads this, table
    {
      table.Valid()
    }

    constructor (maxDynamicTableSize: int32)
      ensures Valid() && fresh(table)
      ensures table.entries == [] && table.maxSize == maxDynamicTableSize
    {
      table := new D.DynamicTable(maxDynamicTableSize);
    }

    /** The `MaxDynamicTableSize` setter: forwards to the table, which evicts. */
    method SetMaxDynamicTableSize(value: int32)
      requires Valid()
      modifies table
      ensures Valid() && table.maxSize == value
      ensures table.entries == D.Evicted(old(table.entries), value)
    {
      table.SetMaxSize(value);
    }

    /** Encodes the headers in order into one header block. */
    method Encode(headers: seq<HeaderField>) returns (r: Bytes)
      requires Valid()
      modifies table
      ensures Valid() && table.maxSize == old(table.maxSize)
      ensures (r, table.entries) == EncodeBlock(old(table.entries), table.maxSize, headers)
    {
      ghost var spec := EncodeBlock(table.entries, table.maxSize, headers);
      var result: Bytes := [];
      var i := 0;
      assert headers[i..] == headers;
      while i < |headers|
        invariant 0 <= i <= |headers|
        invariant Valid() && table.maxSize == old(table.maxSize)
        invariant spec.0 == result + EncodeBlock(table.entries, table.maxSize, headers[i..]).0
        invariant spec.1 == EncodeBlock(table.entries, table.maxSize, headers[i..]).1
      {
        EncodeBlockStep(table.entries, table.maxSize, headers, i);
        ghost var before := table.entries;
        ghost var rest := EncodeBlock(After(before, table.maxSize, headers[i]), table.maxSize, headers[i + 1..]).0;
        ConcatAssoc(result, Representation(before, headers[i]), rest);
        result := EncodeHeader(headers[i].name, headers[i].value, result);
        i := i + 1;
      }
      assert headers[i..] == [];
      assert result + [] == result;
      return result;
    }

    /** Appends the representation of one header to `output` and updates the table. */
    method EncodeHeader(name: HString, value: HString, output: Bytes) returns (result: Bytes)
      requires Valid()
      modifies table
      ensures Valid() && table.maxSize == old(table.maxSize)
      ensures D.Fits(old(table.entries), table.maxSize) && |old(table.entries)| < 0x400_0000
      ensures result == output + Representation(old(table.entries), HeaderField(name, value))
      ensures table.entries == After(old(table.entries), table.maxSize, HeaderField(name, value))
    {
      D.CountBound(table.entries, table.maxSize);
      Pow2Small();
      var staticIndex := FindIndex(name, value);
      if staticIndex > 0 {
        StaticRepresentation(table.entries, HeaderField(name, value));
        var encoded := HpackInteger.Encode(staticIndex, 7, 0x80);
        return output + encoded.value;
      }
      var dynamicIndex, exactMatch := table.FindIndex(name, value);
      if exactMatch {
        DynamicRepresentation(table.entries, HeaderField(name, value));
        var globalIndex := Count() + dynamicIndex + 1;
        var encoded := HpackInteger.Encode(globalIndex, 7, 0x80);
        return output + encoded.value;
      }
      result := EncodeLiteral(name, value, output);
    }

    /**
     * The literal branch of `EncodeHeader`: the name by index when a table
     * knows it, else as a string, then the value; the header enters the table.
     */
    method EncodeLiteral(name: HString, value: HString, output: Bytes) returns (result: Bytes)
      requires Valid() && |table.entries| < 0x400_0000 && !Indexed(table.entries, HeaderField(name, value))
      modifies table
      ensures Valid() && table.maxSize == old(table.maxSize)
      ensures result == output + Representation(old(table.entries), HeaderField(name, value))
      ensures table.entries == D.Added(old(table.entries), table.maxSize, HeaderField(name, value))
    {
      ghost var entries := table.entries;
      var nameIndex := FindNameIndex(name);
      if nameIndex == 0 {
        var dynNameIndex, nameAndValue := table.FindIndex(name, []);
        if dynNameIndex >= 0 {
          nameIndex := Count() + dynNameIndex + 1;
        }
      }
      assert nameIndex == LiteralNameIndex(entries, name);
      ghost var namePart: Bytes;
      if nameIndex > 0 {
        var indexEncoded := HpackInteger.Encode(nameIndex, 6, 0x40);
        namePart := indexEncoded.value;
        result := output + indexEncoded.value;
      } else {
        var literalMark: Bytes := [0x40];
        namePart := literalMark + StringOctets(name);
        result := output + literalMark;
        result := EncodeString(name, result);
        ConcatAssoc(output, literalMark, StringOctets(name));
      }
      result := EncodeString(value, result);
      ConcatAssoc(output, namePart, StringOctets(value));
      LiteralRepresentation(entries, HeaderField(name, value));
      table.Add(name, value);
    }

    /** Appends a string literal without Huffman coding. */
    method EncodeString(value: HString, output: Bytes) returns (result: Bytes)
      ensures result == output + StringOctets(value)
    {
      var lengthEncoded := HpackInteger.Encode(|value|, 7, 0x00);
      result := output + lengthEncoded.value + value;
    }
  }
}
