/**
 * The HPACK static table (RFC 7541, Appendix A): 61 fixed header fields
 * addressed by 1-based index. Header names and values are octet strings.
 * The source converts them to and from .NET strings with UTF-8; the model
 * does not: it maps each character to one octet, which agrees with UTF-8
 * on ASCII text only.
 */
module HpackStaticTable {
  import opened Common

  /** A header name or value; C# strings are shorter than 2^31. */
  type HString = s: Bytes | |s| < 0x8000_0000

  datatype HeaderField = HeaderField(name: HString, value: HString)

  function Entry(name: string, value: string): HeaderField
    requires |name| < 0x8000_0000 && |value| < 0x8000_0000
  {
    HeaderField(Octets(name), Octets(value))
  }

  /** Entry i (0-based) of the table, as the source lists it. */
  function Literal(i: nat): (string, string)
    requires i < 61
  {
    if i == 0 then (":authority", "")
    else if i == 1 then (":method", "GET")
    else if i == 2 then (":method", "POST")
    else if i == 3 then (":path", "/")
    else if i == 4 then (":path", "/index.html")
    else if i == 5 then (":scheme", "http")
    else if i == 6 then (":scheme", "https")
    else if i == 7 then (":status", "200")
    else if i == 8 then (":status", "204")
    else if i == 9 then (":status", "206")
    else if i == 10 then (":status", "304")
    else if i == 11 then (":status", "400")
    else if i == 12 then (":status", "404")
    else if i == 13 then (":status", "500")
    else if i == 14 then ("accept-charset", "")
    else if i == 15 then ("accept-encoding", "gzip, deflate")
    else if i == 16 then ("accept-language", "")
    else if i == 17 then ("accept-ranges", "")
    else if i == 18 then ("accept", "")
    else if i == 19 then ("access-control-allow-origin", "")
    else if i == 20 then ("age", "")
    else if i == 21 then ("allow", "")
    else if i == 22 then ("authorization", "")
    else if i == 23 then ("cache-control", "")
    else if i == 24 then ("content-disposition", "")
    else if i == 25 then ("content-encoding", "")
    else if i == 26 then ("content-language", "")
    else if i == 27 then ("content-length", "")
    else if i == 28 then ("content-location", "")
    else if i == 29 then ("content-range", "")
    else if i == 30 then ("content-type", "")
    else if i == 31 then ("cookie", "")
    else if i == 32 then ("date", "")
    else if i == 33 then ("etag", "")
    else if i == 34 then ("expect", "")
    else if i == 35 then ("expires", "")
    else if i == 36 then ("from", "")
    else if i == 37 then ("host", "")
    else if i == 38 then ("if-match", "")
    else if i == 39 then ("if-modified-since", "")
    else if i == 40 then ("if-none-match", "")
    else if i == 41 then ("if-range", "")
    else if i == 42 then ("if-unmodified-since", "")
    else if i == 43 then ("last-modified", "")
    else if i == 44 then ("link", "")
    else if i == 45 then ("location", "")
    else if i == 46 then ("max-forwards", "")
    else if i == 47 then ("proxy-authenticate", "")
    else if i == 48 then ("proxy-authorization", "")
    else if i == 49 then ("range", "")
    else if i == 50 then ("referer", "")
    else if i == 51 then ("refresh", "")
    else if i == 52 then ("retry-after", "")
    else if i == 53 then ("server", "")
    else if i == 54 then ("set-cookie", "")
    else if i == 55 then ("strict-transport-security", "")
    else if i == 56 then ("transfer-encoding", "")
    else if i == 57 then ("user-agent", "")
    else if i == 58 then ("vary", "")
    else if i == 59 then ("via", "")
    else ("www-authenticate", "")
  }

  /** The first n entries, as octets. */
  function Prefix(n: nat): (r: seq<HeaderField>)
    requires n <= 61
    ensures |r| == n
  {
    if n == 0 then []
    else Prefix(n - 1) + [Entry(Literal(n - 1).0, Literal(n - 1).1)]
  }

  const Table: seq<HeaderField> := Prefix(61)

  /** `HpackStaticTable.Count`: the table holds exactly the 61 entries of Appendix A. */
  function Count(): (r: nat)
    ensures r == |Table| == 61
  {
    |Table|
  }

  /** 1-based lookup; anything outside 1..61 throws ArgumentOutOfRangeException. */
  function GetEntry(index: int): (r: Result<HeaderField>)
    ensures r.Ok? <==> 1 <= index <= Count()
    ensures r.Ok? ==> r.value == Table[index - 1]
    ensures r.Err? ==> r.failure == ArgumentOutOfRange
  {
    if index < 1 || index > |Table| then Err(ArgumentOutOfRange) else Ok(Table[index - 1])
  }

  /** Names compare ignoring ASCII case, values ordinally. */
  predicate NameMatches(e: HeaderField, name: Bytes)
  {
    BytesEqualIgnoreCase(e.name, name)
  }

  predicate Matches(e: HeaderField, name: Bytes, value: Bytes)
  {
    NameMatches(e, name) && e.value == value
  }

  /** The scan of FindIndex over a table from position i on. */
  function FindFrom(tbl: seq<HeaderField>, name: Bytes, value: Bytes, i: nat): (r: nat)
    requires i <= |tbl|
    ensures r == 0 ==> forall j :: i <= j < |tbl| ==> !Matches(tbl[j], name, value)
    ensures r != 0 ==> (i < r <= |tbl| && Matches(tbl[r - 1], name, value) &&
      forall j :: i <= j < r - 1 ==> !Matches(tbl[j], name, value))
    decreases |tbl| - i
  {
    if i == |tbl| then 0
    else if Matches(tbl[i], name, value) then i + 1
    else FindFrom(tbl, name, value, i + 1)
  }

  /** The smallest 1-based index whose name matches ignoring case and whose value matches exactly, else 0. */
  function ExactIndex(name: Bytes, value: Bytes): (r: nat)
    ensures r <= |Table|
    ensures r == 0 ==> forall j :: 0 <= j < |Table| ==> !Matches(Table[j], name, value)
    ensures r != 0 ==> (Matches(Table[r - 1], name, value) &&
      forall j :: 0 <= j < r - 1 ==> !Matches(Table[j], name, value))
  {
    FindFrom(Table, name, value, 0)
  }

  method FindIndex(name: Bytes, value: Bytes) returns (r: nat)
    ensures r == ExactIndex(name, value)
  {
    var i := 0;
    while i < |Table|
      invariant 0 <= i <= |Table|
      invariant FindFrom(Table, name, value, i) == FindFrom(Table, name, value, 0)
    {
      if NameMatches(Table[i], name) {
        if Table[i].value == value {
          return i + 1;
        }
      }
      i := i + 1;
    }
    return 0;
  }

  /** The scan of FindNameIndex over a table from position i on. */
  function FindNameFrom(tbl: seq<HeaderField>, name: Bytes, i: nat): (r: nat)
    requires i <= |tbl|
    ensures r == 0 ==> forall j :: i <= j < |tbl| ==> !NameMatches(tbl[j], name)
    ensures r != 0 ==> (i < r <= |tbl| && NameMatches(tbl[r - 1], name) &&
      forall j :: i <= j < r - 1 ==> !NameMatches(tbl[j], name))
    decreases |tbl| - i
  {
    if i == |tbl| then 0
    else if NameMatches(tbl[i], name) then i + 1
    else FindNameFrom(tbl, name, i + 1)
  }

  /** The smallest 1-based index whose name matches ignoring case, else 0. */
  function NameIndex(name: Bytes): (r: nat)
    ensures r <= |Table|
    ensures r == 0 ==> forall j :: 0 <= j < |Table| ==> !NameMatches(Table[j], name)
    ensures r != 0 ==> (NameMatches(Table[r - 1], name) &&
      forall j :: 0 <= j < r - 1 ==> !NameMatches(Table[j], name))
  {
    FindNameFrom(Table, name, 0)
  }

  method FindNameIndex(name: Bytes) returns (r: nat)
    ensures r == NameIndex(name)
  {
    var i := 0;
    while i < |Table|
      invariant 0 <= i <= |Table|
      invariant FindNameFrom(Table, name, i) == FindNameFrom(Table, name, 0)
    {
      if NameMatches(Table[i], name) {
        return i + 1;
      }
      i := i + 1;
    }
    return 0;
  }

  /** A full match implies a name match no later in the table. */
  lemma FindIndexImpliesName(name: Bytes, value: Bytes)
    requires ExactIndex(name, value) > 0
    ensures 0 < NameIndex(name) <= ExactIndex(name, value)
  {
    var i := ExactIndex(name, value);
    assert NameMatches(Table[i - 1], name);
  }

  /** Whatever either search finds can be fetched and matches the query. */
  lemma FoundEntriesMatch(name: Bytes, value: Bytes)
    ensures ExactIndex(name, value) > 0 ==>
      GetEntry(ExactIndex(name, value)).Ok? && Matches(GetEntry(ExactIndex(name, value)).value, name, value)
    ensures NameIndex(name) > 0 ==>
      GetEntry(NameIndex(name)).Ok? && NameMatches(GetEntry(NameIndex(name)).value, name)
  {
  }
}
