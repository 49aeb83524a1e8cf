/**
 * What the encoder and the decoder promise together: a header block the
 * encoder produces decodes, by a decoder whose dynamic table mirrors the
 * encoder's, to the same headers -- values exactly, names up to ASCII case,
 * since a name sent by index comes back as the table spells it -- and leaves
 * the two tables mirroring each other.
 */
module HpackRoundTrip {
  import opened Common
  import opened HpackStaticTable
  import HpackInteger
  import D = HpackDynamicTable
  import opened HpackEncoder
  import opened HpackDecoder

  /** The decoder's entries match the encoder's one for one: names ignoring case, values exactly. */
  predicate Mirrors(dec: seq<HeaderField>, enc: seq<HeaderField>)
  {
    |dec| == |enc| && forall i :: 0 <= i < |dec| ==> Matches(dec[i], enc[i].name, enc[i].value)
  }

  lemma MatchesSameSize(d: HeaderField, e: HeaderField)
    requires Matches(d, e.name, e.value)
    ensures D.EntrySize(d) == D.EntrySize(e)
  {
    BytesEqualIgnoreCaseSameLength(d.name, e.name);
  }

  lemma {:induction false} MirrorsSize(dec: seq<HeaderField>, enc: seq<HeaderField>)
    requires Mirrors(dec, enc)
    ensures D.Size(dec) == D.Size(enc)
    decreases |dec|
  {
    if dec != [] {
      MatchesSameSize(dec[0], enc[0]);
      MirrorsSize(dec[1..], enc[1..]);
    }
  }

  /** Mirrored tables evict the same number of entries. */
  lemma {:induction false} MirrorsEvicted(dec: seq<HeaderField>, enc: seq<HeaderField>, maxSize: int)
    requires Mirrors(dec, enc)
    ensures Mirrors(D.Evicted(dec, maxSize), D.Evicted(enc, maxSize))
    decreases |dec|
  {
    MirrorsSize(dec, enc);
    if dec != [] && D.Size(dec) > maxSize {
      var n := |dec| - 1;
      assert D.Evicted(dec, maxSize) == D.Evicted(dec[..n], maxSize);
      assert D.Evicted(enc, maxSize) == D.Evicted(enc[..n], maxSize);
      assert Mirrors(dec[..n], enc[..n]);
      MirrorsEvicted(dec[..n], enc[..n], maxSize);
    } else {
      assert D.Evicted(dec, maxSize) == dec;
      assert D.Evicted(enc, maxSize) == enc;
    }
  }

  /** Adding matching headers to mirrored tables keeps them mirrored. */
  lemma MirrorsAdded(dec: seq<HeaderField>, enc: seq<HeaderField>, maxSize: int, hd: HeaderField, he: HeaderField)
    requires Mirrors(dec, enc) && Matches(hd, he.name, he.value)
    ensures Mirrors(D.Added(dec, maxSize, hd), D.Added(enc, maxSize, he))
  {
    MatchesSameSize(hd, he);
    if D.EntrySize(he) <= maxSize {
      MirrorsEvicted([hd] + dec, [he] + enc, maxSize);
    }
  }

  /** A string literal is its length prefix followed by its octets. */
  lemma StringParts(s: HString, rest: Bytes)
    ensures var e := HpackInteger.EncodeOctets(|s|, 7, 0);
      var buf := StringOctets(s) + rest;
      buf == e + (s + rest) && buf[|e|..|e| + |s|] == s
  {
    var e := HpackInteger.EncodeOctets(|s|, 7, 0);
    ConcatAssoc(e, s, rest);
  }

  /** The length prefix of a string literal the encoder writes: plain (not Huffman) and read back exactly. */
  lemma StringLengthRoundTrip(s: HString, rest: Bytes)
    ensures var e := HpackInteger.EncodeOctets(|s|, 7, 0);
      var buf := StringOctets(s) + rest;
      0 < |buf| && buf[0] < 0x80 && HpackInteger.DecodeSpec(buf, 7) == Ok((|s|, |e|)) &&
      |StringOctets(s)| == |e| + |s| <= |buf| && buf[|e|..|e| + |s|] == s
  {
    Pow2Small();
    StringParts(s, rest);
    HpackInteger.FirstOctetRange(|s|, 7, 0);
    HpackInteger.DecodeEncodeOctets(|s|, 7, 0, s + rest);
  }

  /** A plain string literal whose length prefix has been read is the octets that follow it. */
  lemma PlainStringAt(huffman: Bytes -> HString, buf: Bytes, length: int32, consumed: nat)
    requires 0 < |buf| < TWO31 && buf[0] < 0x80
    requires HpackInteger.DecodeSpec(buf, 7) == Ok((length, consumed))
    requires 0 <= length && consumed + length <= |buf|
    ensures DecodeStringSpec(huffman, buf) == Ok((buf[consumed..consumed + length], consumed + length))
  {
    Wrap32Id(consumed + length);
  }

  /** A string literal the encoder writes decodes to itself and is consumed exactly. */
  lemma StringRoundTrip(huffman: Bytes -> HString, s: HString, rest: Bytes)
    requires |StringOctets(s)| + |rest| < TWO31
    ensures DecodeStringSpec(huffman, StringOctets(s) + rest) == Ok((s, |StringOctets(s)|))
  {
    StringLengthRoundTrip(s, rest);
    PlainStringAt(huffman, StringOctets(s) + rest, |s|, |HpackInteger.EncodeOctets(|s|, 7, 0)|);
  }

  /** The octets e are a string literal for s: they read back as s, consumed exactly, whatever follows them. */
  ghost predicate ReadsBack(huffman: Bytes -> HString, e: Bytes, s: HString)
  {
    forall rest: Bytes {:trigger DecodeStringSpec(huffman, e + rest)} ::
      |e| + |rest| < TWO31 ==> DecodeStringSpec(huffman, e + rest) == Ok((s, |e|))
  }

  lemma ReadsBackBefore(huffman: Bytes -> HString, e: Bytes, s: HString, rest: Bytes)
    requires ReadsBack(huffman, e, s) && |e| + |rest| < TWO31
    ensures DecodeStringSpec(huffman, e + rest) == Ok((s, |e|))
  {
  }

  lemma StringReadsBack(huffman: Bytes -> HString, s: HString)
    ensures ReadsBack(huffman, StringOctets(s), s)
  {
    forall rest: Bytes | |StringOctets(s)| + |rest| < TWO31
      ensures DecodeStringSpec(huffman, StringOctets(s) + rest) == Ok((s, |StringOctets(s)|))
    {
      StringRoundTrip(huffman, s, rest);
    }
  }

  /** Indices written with a 7-bit prefix under 0x80 read back as indexed representations. */
  lemma IndexedRoundTrip(index: int32, rest: Bytes)
    requires index >= 0
    ensures var e := HpackInteger.EncodeOctets(index, 7, 0x80);
      (e + rest)[0] >= 0x80 && HpackInteger.DecodeSpec(e + rest, 7) == Ok((index, |e|))
  {
    Pow2Small();
    HpackInteger.FirstOctetRange(index, 7, 0x80);
    HpackInteger.DecodeEncodeOctets(index, 7, 0x80, rest);
  }

  /** Name indices written with a 6-bit prefix under 0x40 read back as literals with indexing. */
  lemma LiteralIndexRoundTrip(index: int32, rest: Bytes)
    requires index >= 0
    ensures var e := HpackInteger.EncodeOctets(index, 6, 0x40);
      0x40 <= (e + rest)[0] < 0x80 && HpackInteger.DecodeSpec(e + rest, 6) == Ok((index, |e|))
  {
    Pow2Small();
    HpackInteger.FirstOctetRange(index, 6, 0x40);
    HpackInteger.DecodeEncodeOctets(index, 6, 0x40, rest);
  }

  /** The lone 0x40 that announces a literal name is a name index of 0. */
  lemma NewNameOctet()
    ensures HpackInteger.EncodeOctets(0, 6, 0x40) == [0x40]
  {
    Pow2Small();
    HpackInteger.OrUnderMask(0x40, 0, 6);
  }

  /** LiteralSpec, evaluated from the results of its three steps. */
  lemma LiteralSteps(huffman: Bytes -> HString, t: TableState, buf: Bytes, nameIndex: int32, consumed: nat,
                     name: HString, offset: nat, value: HString, valueConsumed: nat, total: nat)
    requires |buf| < TWO31 && total == offset + valueConsumed
    requires HpackInteger.DecodeSpec(buf, 6) == Ok((nameIndex, consumed))
    requires consumed <= |buf| && LiteralName(huffman, t.entries, buf, nameIndex, consumed) == Ok((name, offset))
    requires offset <= |buf| && DecodeStringSpec(huffman, buf[offset..]) == Ok((value, valueConsumed))
    ensures LiteralSpec(huffman, t, buf, 6, true) == Ok((HeaderField(name, value), total,
        TableState(D.Added(t.entries, t.maxSize, HeaderField(name, value)), t.maxSize)))
  {
  }

  /** A representation whose first octet is in 0x40..0x7F is a literal with incremental indexing. */
  lemma FieldOfLiteral(huffman: Bytes -> HString, t: TableState, buf: Bytes, h: HeaderField, consumed: nat,
                       t': TableState)
    requires 0 < |buf| < TWO31 && 0x40 <= buf[0] < 0x80
    requires LiteralSpec(huffman, t, buf, 6, true) == Ok((h, consumed, t'))
    ensures FieldSpec(huffman, t, buf) == Ok(Field(Some(h), consumed, t'))
  {
  }

  /** The result of decoding one representation the encoder produced for h. */
  predicate DecodedAs(f: Result<Field>, consumed: nat, h: HeaderField, maxSize: int32, entries: seq<HeaderField>)
  {
    f.Ok? && f.value.consumed == consumed && f.value.header.Some? &&
    Matches(f.value.header.value, h.name, h.value) &&
    f.value.table.maxSize == maxSize && Mirrors(f.value.table.entries, entries)
  }

  lemma StaticIndexedField(huffman: Bytes -> HString, dec: seq<HeaderField>, enc: seq<HeaderField>, maxSize: int32,
                           h: HeaderField, rest: Bytes)
    requires |enc| < 0x400_0000 && Mirrors(dec, enc)
    requires ExactIndex(h.name, h.value) > 0
    requires |Representation(enc, h)| + |rest| < TWO31
    ensures DecodedAs(FieldSpec(huffman, TableState(dec, maxSize), Representation(enc, h) + rest),
                      |Representation(enc, h)|, h, maxSize, After(enc, maxSize, h))
  {
    var s := ExactIndex(h.name, h.value);
    assert Representation(enc, h) == HpackInteger.EncodeOctets(s, 7, 0x80);
    IndexedRoundTrip(s, rest);
  }

  lemma DynamicIndexedField(huffman: Bytes -> HString, dec: seq<HeaderField>, enc: seq<HeaderField>, maxSize: int32,
                            h: HeaderField, rest: Bytes)
    requires |enc| < 0x400_0000 && Mirrors(dec, enc)
    requires ExactIndex(h.name, h.value) == 0 && D.Find(enc, h.name, h.value).1
    requires |Representation(enc, h)| + |rest| < TWO31
    ensures DecodedAs(FieldSpec(huffman, TableState(dec, maxSize), Representation(enc, h) + rest),
                      |Representation(enc, h)|, h, maxSize, After(enc, maxSize, h))
  {
    var d := D.Find(enc, h.name, h.value).0;
    D.FindCharacterized(enc, h.name, h.value);
    var index := Count() + d + 1;
    assert Representation(enc, h) == HpackInteger.EncodeOctets(index, 7, 0x80);
    IndexedRoundTrip(index, rest);
    assert GetIndexedHeader(dec, index) == Ok(dec[d]);
    assert Matches(dec[d], enc[d].name, enc[d].value);
  }

  /** A literal with incremental indexing, a name index and a value string, from the decoded parts. */
  lemma IndexedNameFrom(huffman: Bytes -> HString, t: TableState, index: int32, entry: HeaderField,
                        buf: Bytes, consumed: nat, value: HString, vc: nat, total: nat)
    requires index > 0 && GetIndexedHeader(t.entries, index) == Ok(entry) && total == consumed + vc
    requires 0 < |buf| < TWO31 && consumed <= |buf| && 0x40 <= buf[0] < 0x80
    requires HpackInteger.DecodeSpec(buf, 6) == Ok((index, consumed))
    requires DecodeStringSpec(huffman, buf[consumed..]) == Ok((value, vc))
    ensures LiteralSpec(huffman, t, buf, 6, true) == Ok((HeaderField(entry.name, value), total,
      TableState(D.Added(t.entries, t.maxSize, HeaderField(entry.name, value)), t.maxSize)))
  {
    LiteralNameOfIndex(huffman, t.entries, buf, index, consumed, entry);
    LiteralSteps(huffman, t, buf, index, consumed, entry.name, consumed, value, vc, total);
  }

  /** A positive name index takes the name from the table entry it points at. */
  lemma LiteralNameOfIndex(huffman: Bytes -> HString, entries: seq<HeaderField>, buf: Bytes, index: int, consumed: nat,
                           entry: HeaderField)
    requires index > 0 && GetIndexedHeader(entries, index) == Ok(entry) && consumed <= |buf| < TWO31
    ensures LiteralName(huffman, entries, buf, index, consumed) == Ok((entry.name, consumed))
  {
  }

  /** A buffer that starts with a name index under 0x40 reads that index back. */
  lemma LiteralIndexAt(index: int32, buf: Bytes)
    requires index >= 0
    requires |HpackInteger.EncodeOctets(index, 6, 0x40)| <= |buf|
    requires buf[..|HpackInteger.EncodeOctets(index, 6, 0x40)|] == HpackInteger.EncodeOctets(index, 6, 0x40)
    ensures 0x40 <= buf[0] < 0x80
    ensures HpackInteger.DecodeSpec(buf, 6) == Ok((index, |HpackInteger.EncodeOctets(index, 6, 0x40)|))
  {
    var e := HpackInteger.EncodeOctets(index, 6, 0x40);
    var tail := buf[|e|..];
    assert buf == e + tail;
    LiteralIndexRoundTrip(index, tail);
  }

  /** Where the name index and the value literal sit in a literal whose name is an index. */
  lemma IndexedNameSlices(rep: Bytes, e: Bytes, v: Bytes, rest: Bytes)
    requires rep == e + v
    ensures (rep + rest)[..|e|] == e && (rep + rest)[|e|..] == v + rest && |rep| == |e| + |v|
  {
  }

  /** Where the name and the value literals sit in a literal with a literal name. */
  lemma NewNameSlices(rep: Bytes, n: Bytes, v: Bytes, rest: Bytes)
    requires rep == [0x40] + n + v
    ensures (rep + rest)[0] == 0x40 && |rep| == 1 + |n| + |v|
    ensures (rep + rest)[1..] == n + (v + rest) && (rep + rest)[1 + |n|..] == v + rest
  {
  }

  /** A name index under 0x40 and a literal for the value, followed by anything, decode to that header. */
  lemma IndexedNameDecodes(huffman: Bytes -> HString, t: TableState, index: int32, entry: HeaderField,
                           rep: Bytes, e: Bytes, v: Bytes, value: HString, rest: Bytes)
    requires index > 0 && GetIndexedHeader(t.entries, index) == Ok(entry)
    requires e == HpackInteger.EncodeOctets(index, 6, 0x40) && rep == e + v && |rep| + |rest| < TWO31
    requires ReadsBack(huffman, v, value)
    ensures 0x40 <= (rep + rest)[0] < 0x80
    ensures LiteralSpec(huffman, t, rep + rest, 6, true) == Ok((HeaderField(entry.name, value), |rep|,
      TableState(D.Added(t.entries, t.maxSize, HeaderField(entry.name, value)), t.maxSize)))
  {
    var buf := rep + rest;
    IndexedNameSlices(rep, e, v, rest);
    LiteralIndexAt(index, buf);
    ReadsBackBefore(huffman, v, value, rest);
    IndexedNameFrom(huffman, t, index, entry, buf, |e|, value, |v|, |rep|);
  }

  /** The octet 0x40 alone is a literal with incremental indexing whose name index is 0. */
  lemma NewNamePrefix(buf: Bytes)
    requires 0 < |buf| < TWO31 && buf[0] == 0x40
    ensures HpackInteger.DecodeSpec(buf, 6) == Ok((0, 1))
  {
  }

  /** A name index of 0 takes the name from the string literal that follows the first octet. */
  lemma LiteralNameOfString(huffman: Bytes -> HString, entries: seq<HeaderField>, buf: Bytes, name: HString, nc: nat)
    requires 1 + nc <= |buf| < TWO31
    requires DecodeStringSpec(huffman, buf[1..]) == Ok((name, nc))
    ensures LiteralName(huffman, entries, buf, 0, 1) == Ok((name, 1 + nc))
  {
  }

  lemma IndexedNameField(huffman: Bytes -> HString, dec: seq<HeaderField>, enc: seq<HeaderField>, maxSize: int32,
                         h: HeaderField, rest: Bytes)
    requires |enc| < 0x400_0000 && Mirrors(dec, enc)
    requires !Indexed(enc, h) && LiteralNameIndex(enc, h.name) > 0
    requires |Representation(enc, h)| + |rest| < TWO31
    ensures DecodedAs(FieldSpec(huffman, TableState(dec, maxSize), Representation(enc, h) + rest),
                      |Representation(enc, h)|, h, maxSize, After(enc, maxSize, h))
  {
    var index := LiteralNameIndex(enc, h.name);
    LiteralRepresentation(enc, h);
    var entry := IndexedName(dec, enc, h.name);
    StringReadsBack(huffman, h.value);
    var t := TableState(dec, maxSize);
    var hd := HeaderField(entry.name, h.value);
    IndexedNameDecodes(huffman, t, index, entry, Representation(enc, h),
                       HpackInteger.EncodeOctets(index, 6, 0x40), StringOctets(h.value), h.value, rest);
    FieldOfLiteral(huffman, t, Representation(enc, h) + rest, hd, |Representation(enc, h)|,
                   TableState(D.Added(dec, maxSize, hd), maxSize));
    MirrorsAdded(dec, enc, maxSize, HeaderField(entry.name, h.value), h);
  }

  /** The name a literal's name index points at, on the decoder's side. */
  lemma IndexedName(dec: seq<HeaderField>, enc: seq<HeaderField>, name: Bytes) returns (entry: HeaderField)
    requires |enc| < 0x400_0000 && Mirrors(dec, enc) && LiteralNameIndex(enc, name) > 0
    ensures GetIndexedHeader(dec, LiteralNameIndex(enc, name)) == Ok(entry) && NameMatches(entry, name)
  {
    var index := LiteralNameIndex(enc, name);
    LiteralNameIndexFinds(enc, name);
    entry := GetIndexedHeader(dec, index).value;
    if index > |Table| {
      var i := index - |Table| - 1;
      assert Matches(dec[i], enc[i].name, enc[i].value);
    }
  }

  /** A literal with incremental indexing, a literal name and a value, from the decoded strings. */
  lemma NewNameFrom(huffman: Bytes -> HString, t: TableState, buf: Bytes, name: HString, nc: nat,
                    value: HString, vc: nat, total: nat)
    requires 1 + nc <= |buf| < TWO31 && buf[0] == 0x40
    requires DecodeStringSpec(huffman, buf[1..]) == Ok((name, nc))
    requires DecodeStringSpec(huffman, buf[1 + nc..]) == Ok((value, vc)) && total == 1 + nc + vc
    ensures LiteralSpec(huffman, t, buf, 6, true) == Ok((HeaderField(name, value), total,
      TableState(D.Added(t.entries, t.maxSize, HeaderField(name, value)), t.maxSize)))
  {
    NewNamePrefix(buf);
    LiteralNameOfString(huffman, t.entries, buf, name, nc);
    LiteralSteps(huffman, t, buf, 0, 1, name, 1 + nc, value, vc, total);
  }

  /** The octets 0x40, a literal for the name and a literal for the value, followed by anything, decode to that header. */
  lemma NewNameDecodes(huffman: Bytes -> HString, t: TableState, rep: Bytes, n: Bytes, v: Bytes,
                       name: HString, value: HString, rest: Bytes)
    requires rep == [0x40] + n + v && |rep| + |rest| < TWO31
    requires ReadsBack(huffman, n, name) && ReadsBack(huffman, v, value)
    ensures (rep + rest)[0] == 0x40
    ensures LiteralSpec(huffman, t, rep + rest, 6, true) ==
      Ok((HeaderField(name, value), |rep|, TableState(D.Added(t.entries, t.maxSize, HeaderField(name, value)), t.maxSize)))
  {
    var buf := rep + rest;
    NewNameSlices(rep, n, v, rest);
    ReadsBackBefore(huffman, n, name, v + rest);
    ReadsBackBefore(huffman, v, value, rest);
    NewNameFrom(huffman, t, buf, name, |n|, value, |v|, |rep|);
  }

  lemma NewNameField(huffman: Bytes -> HString, dec: seq<HeaderField>, enc: seq<HeaderField>, maxSize: int32,
                     h: HeaderField, rest: Bytes)
    requires |enc| < 0x400_0000 && Mirrors(dec, enc)
    requires !Indexed(enc, h) && LiteralNameIndex(enc, h.name) == 0
    requires |Representation(enc, h)| + |rest| < TWO31
    ensures DecodedAs(FieldSpec(huffman, TableState(dec, maxSize), Representation(enc, h) + rest),
                      |Representation(enc, h)|, h, maxSize, After(enc, maxSize, h))
  {
    LiteralRepresentation(enc, h);
    var t := TableState(dec, maxSize);
    StringReadsBack(huffman, h.name);
    StringReadsBack(huffman, h.value);
    NewNameDecodes(huffman, t, Representation(enc, h), StringOctets(h.name), StringOctets(h.value), h.name, h.value, rest);
    FieldOfLiteral(huffman, t, Representation(enc, h) + rest, h, |Representation(enc, h)|,
                   TableState(D.Added(dec, maxSize, h), maxSize));
    MirrorsAdded(dec, enc, maxSize, h, h);
  }

  /**
   * One header: the representation the encoder writes decodes to a header
   * that matches it, consumes exactly its octets, and leaves the decoder's
   * table mirroring the encoder's.
   */
  lemma FieldRoundTrip(huffman: Bytes -> HString, dec: seq<HeaderField>, enc: seq<HeaderField>, maxSize: int32,
                       h: HeaderField, rest: Bytes)
    requires |enc| < 0x400_0000 && Mirrors(dec, enc)
    requires |Representation(enc, h)| + |rest| < TWO31
    ensures DecodedAs(FieldSpec(huffman, TableState(dec, maxSize), Representation(enc, h) + rest),
                      |Representation(enc, h)|, h, maxSize, After(enc, maxSize, h))
  {
    if ExactIndex(h.name, h.value) > 0 {
      StaticIndexedField(huffman, dec, enc, maxSize, h, rest);
    } else if D.Find(enc, h.name, h.value).1 {
      DynamicIndexedField(huffman, dec, enc, maxSize, h, rest);
    } else if LiteralNameIndex(enc, h.name) > 0 {
      IndexedNameField(huffman, dec, enc, maxSize, h, rest);
    } else {
      NewNameField(huffman, dec, enc, maxSize, h, rest);
    }
  }

  /** The decoded headers match the originals one for one. */
  predicate SameHeaders(decoded: seq<HeaderField>, headers: seq<HeaderField>)
  {
    |decoded| == |headers| &&
    forall i :: 0 <= i < |decoded| ==> Matches(decoded[i], headers[i].name, headers[i].value)
  }

  /**
   * RFC 7541, section 2.2: a block the encoder produces decodes without error
   * to the encoder's headers (names up to case), and afterwards the two
   * dynamic tables still mirror each other under the same maximum.
   */
  lemma {:induction false} BlockRoundTrip(huffman: Bytes -> HString, dec: seq<HeaderField>, enc: seq<HeaderField>,
                                          maxSize: int32, headers: seq<HeaderField>)
    requires D.Fits(enc, maxSize) && Mirrors(dec, enc)
    requires |EncodeBlock(enc, maxSize, headers).0| < TWO31
    ensures var (block, encAfter) := EncodeBlock(enc, maxSize, headers);
      var (result, decAfter) := DecodeBlock(huffman, TableState(dec, maxSize), block);
      result.Ok? && SameHeaders(result.value, headers) &&
      decAfter.maxSize == maxSize && Mirrors(decAfter.entries, encAfter)
    decreases |headers|
  {
    if headers != [] {
      D.CountBound(enc, maxSize);
      var h := headers[0];
      var rep := Representation(enc, h);
      var next := After(enc, maxSize, h);
      var rest := EncodeBlock(next, maxSize, headers[1..]);
      assert EncodeBlock(enc, maxSize, headers) == (rep + rest.0, rest.1);
      FieldRoundTrip(huffman, dec, enc, maxSize, h, rest.0);
      var f := FieldSpec(huffman, TableState(dec, maxSize), rep + rest.0).value;
      assert (rep + rest.0)[|rep|..] == rest.0;
      BlockRoundTrip(huffman, f.table.entries, next, maxSize, headers[1..]);
      BlockCons(huffman, TableState(dec, maxSize), rep + rest.0, f, h, headers[1..]);
      assert headers == [h] + headers[1..];
    } else {
      assert EncodeBlock(enc, maxSize, headers) == ([], enc);
    }
  }

  /** A block whose first representation decodes to a header matching h, followed by a block matching the rest. */
  lemma BlockCons(huffman: Bytes -> HString, t: TableState, block: Bytes, f: Field, h: HeaderField,
                  tail: seq<HeaderField>)
    requires 0 < |block| < TWO31 && FieldSpec(huffman, t, block) == Ok(f)
    requires f.header.Some? && Matches(f.header.value, h.name, h.value)
    requires var r := DecodeBlock(huffman, f.table, block[f.consumed..]);
      r.0.Ok? && SameHeaders(r.0.value, tail)
    ensures var r := DecodeBlock(huffman, f.table, block[f.consumed..]);
      var whole := DecodeBlock(huffman, t, block);
      whole.0.Ok? && SameHeaders(whole.0.value, [h] + tail) && whole.1 == r.1
  {
    var r := DecodeBlock(huffman, f.table, block[f.consumed..]);
    assert DecodeBlock(huffman, t, block) == Prefixed([f.header.value], r);
    SameHeadersCons(f.header.value, r.0.value, h, tail);
  }

  lemma SameHeadersCons(x: HeaderField, decoded: seq<HeaderField>, h: HeaderField, headers: seq<HeaderField>)
    requires Matches(x, h.name, h.value) && SameHeaders(decoded, headers)
    ensures SameHeaders([x] + decoded, [h] + headers)
  {
    var d, hs := [x] + decoded, [h] + headers;
    forall i | 0 <= i < |d|
      ensures Matches(d[i], hs[i].name, hs[i].value)
    {
      if i > 0 {
        assert d[i] == decoded[i - 1] && hs[i] == headers[i - 1];
      }
    }
  }

  /** A fresh encoder and a fresh decoder with the same maximum agree on every header list. */
  lemma FreshRoundTrip(huffman: Bytes -> HString, maxSize: int32, headers: seq<HeaderField>)
    requires |EncodeBlock([], maxSize, headers).0| < TWO31
    ensures var result := DecodeBlock(huffman, TableState([], maxSize), EncodeBlock([], maxSize, headers).0).0;
      result.Ok? && SameHeaders(result.value, headers)
  {
    BlockRoundTrip(huffman, [], [], maxSize, headers);
  }
}
