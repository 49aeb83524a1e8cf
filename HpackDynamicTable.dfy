/**
 * The HPACK dynamic table (RFC 7541, sections 2.3.2, 4.1 and 4.4): newest
 * entry first, a running size of name length + value length + 32 per entry,
 * and eviction of the oldest entries whenever the size exceeds the maximum.
 */
module HpackDynamicTable {
  import opened Common
  import opened HpackStaticTable

  /** `CalculateEntrySize`: name length + value length + 32 (RFC 7541, section 4.1). */
  function EntrySize(e: HeaderField): (r: nat)
    ensures r == |e.name| + |e.value| + 32 && r >= 32
  {
    |e.name| + |e.value| + 32
  }

  /** The sum of the entry sizes. */
  function Size(entries: seq<HeaderField>): (r: nat)
    ensures r >= 32 * |entries|
    ensures entries == [] <==> r == 0
  {
    if entries == [] then 0 else EntrySize(entries[0]) + Size(entries[1..])
  }

  lemma {:induction false} SizeAppend(a: seq<HeaderField>, b: seq<HeaderField>)
    ensures Size(a + b) == Size(a) + Size(b)
    decreases |a|
  {
    if a != [] {
      assert (a + b)[0] == a[0];
      assert (a + b)[1..] == a[1..] + b;
      SizeAppend(a[1..], b);
    } else {
      assert a + b == b;
    }
  }

  lemma SizeDropLast(entries: seq<HeaderField>)
    requires entries != []
    ensures Size(entries) == Size(entries[..|entries| - 1]) + EntrySize(entries[|entries| - 1])
  {
    var n := |entries| - 1;
    assert entries == entries[..n] + [entries[n]];
    SizeAppend(entries[..n], [entries[n]]);
  }

  /** The size bound a table keeps: it fits its maximum unless it is empty. */
  predicate Fits(entries: seq<HeaderField>, maxSize: int)
  {
    entries == [] || Size(entries) <= maxSize
  }

  /** The entries left after dropping the oldest until the size fits. */
  function Evicted(entries: seq<HeaderField>, maxSize: int): (r: seq<HeaderField>)
    ensures |r| <= |entries| && r == entries[..|r|]
    ensures Fits(r, maxSize)
    ensures |r| < |entries| ==> Size(entries[..|r| + 1]) > maxSize
    decreases |entries|
  {
    if entries == [] || Size(entries) <= maxSize then entries
    else
      var shorter := entries[..|entries| - 1];
      var r := Evicted(shorter, maxSize);
      assert entries[..|r|] == shorter[..|r|];
      assert |r| < |shorter| ==> entries[..|r| + 1] == shorter[..|r| + 1];
      assert entries[..|entries|] == entries;
      r
  }

  /** The entries after `Add`: too large an entry empties the table, otherwise it goes first and the oldest are evicted. */
  function Added(entries: seq<HeaderField>, maxSize: int, e: HeaderField): (r: seq<HeaderField>)
    ensures Fits(r, maxSize)
  {
    if EntrySize(e) > maxSize then [] else Evicted([e] + entries, maxSize)
  }

  /**
   * RFC 7541, section 4.4: an entry larger than the maximum empties the
   * table; otherwise it becomes entry 0 and the surviving older entries keep
   * their order behind it.
   */
  lemma AddedShape(entries: seq<HeaderField>, maxSize: int, e: HeaderField)
    ensures EntrySize(e) > maxSize ==> Added(entries, maxSize, e) == []
    ensures EntrySize(e) <= maxSize ==>
      exists k :: 0 <= k <= |entries| && Added(entries, maxSize, e) == [e] + entries[..k]
  {
    if EntrySize(e) <= maxSize {
      var s := [e] + entries;
      var r := Evicted(s, maxSize);
      assert s[..1] == [e];
      assert Size([e]) == EntrySize(e) + Size([]);
      var k := |r| - 1;
      assert r == [e] + entries[..k];
    }
  }

  /** `GetEntry`: 0-based; outside 0..Count-1 it throws ArgumentOutOfRangeException. */
  function GetEntry(entries: seq<HeaderField>, index: int): (r: Result<HeaderField>)
    ensures r.Ok? <==> 0 <= index < |entries|
    ensures r.Ok? ==> r.value == entries[index]
    ensures r.Err? ==> r.failure == ArgumentOutOfRange
  {
    if index < 0 || index >= |entries| then Err(ArgumentOutOfRange) else Ok(entries[index])
  }

  /**
   * What `FindIndex` returns: the first exact match (names ignoring case,
   * values ordinally) with true; else the first name match with false; else
   * (-1, false).
   */
  function Find(entries: seq<HeaderField>, name: Bytes, value: Bytes): (r: (int, bool))
    ensures -1 <= r.0 < |entries| && (r.1 ==> r.0 >= 0)
  {
    var exact := FindFrom(entries, name, value, 0);
    if exact > 0 then (exact - 1, true)
    else (FindNameFrom(entries, name, 0) - 1, false)
  }

  lemma FindCharacterized(entries: seq<HeaderField>, name: Bytes, value: Bytes)
    ensures var (i, exact) := Find(entries, name, value);
      -1 <= i < |entries| &&
      (exact ==> (0 <= i && Matches(entries[i], name, value) &&
         forall j :: 0 <= j < i ==> !Matches(entries[j], name, value))) &&
      (!exact ==> forall j :: 0 <= j < |entries| ==> !Matches(entries[j], name, value)) &&
      (!exact && i >= 0 ==> (NameMatches(entries[i], name) &&
         forall j :: 0 <= j < i ==> !NameMatches(entries[j], name))) &&
      (!exact && i == -1 ==> forall j :: 0 <= j < |entries| ==> !NameMatches(entries[j], name))
  {
  }

  /** The table as the encoder and decoder see it. */
  class DynamicTable {
    var entries: seq<HeaderField>
    var currentSize: int
    var maxSize: int32

    /** CurrentSize is the sum of the entry sizes and fits the maximum unless the table is empty. */
    ghost predicate Valid()
      reads this
    {
      currentSize == Size(entries) && Fits(entries, maxSize)
    }

    constructor (maxSize: int32)
      ensures Valid() && entries == [] && this.maxSize == maxSize
    {
      entries := [];
      currentSize := 0;
      this.maxSize := maxSize;
    }

    function Count(): nat
      reads this
    {
      |entries|
    }

    /** The `MaxSize` setter: store the new maximum, then evict. */
    method SetMaxSize(value: int32)
      requires Valid()
      modifies this
      ensures Valid() && maxSize == value
      ensures entries == Evicted(old(entries), value)
    {
      maxSize := value;
      Evict();
    }

    method Add(name: HString, value: HString)
      requires Valid()
      modifies this
      ensures Valid() && maxSize == old(maxSize)
      ensures entries == Added(old(entries), maxSize, HeaderField(name, value))
    {
      var entrySize := EntrySize(HeaderField(name, value));
      if entrySize > maxSize {
        Clear();
        return;
      }
      entries := [HeaderField(name, value)] + entries;
      currentSize := currentSize + entrySize;
      Evict();
    }

    method FindIndex(name: Bytes, value: Bytes) returns (index: int, exactMatch: bool)
      ensures (index, exactMatch) == Find(entries, name, value)
    {
      var nameOnlyIndex := -1;
      var i := 0;
      while i < |entries|
        invariant 0 <= i <= |entries|
        invariant forall j :: 0 <= j < i ==> !Matches(entries[j], name, value)
        invariant -1 <= nameOnlyIndex < i
        invariant nameOnlyIndex == -1 ==> forall j :: 0 <= j < i ==> !NameMatches(entries[j], name)
        invariant nameOnlyIndex >= 0 ==> (NameMatches(entries[nameOnlyIndex], name) &&
          forall j :: 0 <= j < nameOnlyIndex ==> !NameMatches(entries[j], name))
      {
        if NameMatches(entries[i], name) {
          if entries[i].value == value {
            FindCharacterized(entries, name, value);
            return i, true;
          }
          if nameOnlyIndex == -1 {
            nameOnlyIndex := i;
          }
        }
        i := i + 1;
      }
      FindCharacterized(entries, name, value);
      return nameOnlyIndex, false;
    }

    method Clear()
      modifies this
      ensures Valid() && entries == [] && maxSize == old(maxSize)
    {
      entries := [];
      currentSize := 0;
    }

    /** Drop the last (oldest) entry until the size fits or the table is empty. */
    method Evict()
      requires currentSize == Size(entries)
      modifies this
      ensures Valid() && maxSize == old(maxSize)
      ensures entries == Evicted(old(entries), maxSize)
    {
      while currentSize > maxSize && |entries| > 0
        invariant currentSize == Size(entries) && maxSize == old(maxSize)
        invariant Evicted(entries, maxSize) == Evicted(old(entries), maxSize)
        decreases |entries|
      {
        var lastEntry := entries[|entries| - 1];
        SizeDropLast(entries);
        entries := entries[..|entries| - 1];
        currentSize := currentSize - EntrySize(lastEntry);
      }
    }
  }

  /** A valid table holds fewer than 2^26 entries, so every HPACK index into it fits an int. */
  lemma CountBound(entries: seq<HeaderField>, maxSize: int32)
    requires Fits(entries, maxSize)
    ensures |entries| < 0x400_0000
  {
  }
}
