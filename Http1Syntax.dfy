/**
 * The text of an HTTP/1.x message head as the HTTP/1 steps read and write
 * it: the request line split on its first two spaces, a header line cut at
 * its first ':' with both sides trimmed, the first header whose name
 * matches ignoring case, the keep-alive decision, and the lines of a head
 * as the response writers put them together.
 */
module Http1Syntax {
  import opened Common
  import opened Strings
  import HttpMessage

  // ---------------------------------------------------------------------
  // The request line
  // ---------------------------------------------------------------------

  /** `requestLine.Split(' ', 3)`: method, path, and the version, which keeps any further spaces. */
  datatype RequestLine = RequestLine(verb: string, path: string, version: string)

  /** The request line's three parts; None when it has fewer than three. */
  function ParseRequestLine(line: string): Option<RequestLine>
  {
    FirstSpace(line, 0)
  }

  /** The split's scan for the first space from position `i` on. */
  function FirstSpace(line: string, i: nat): Option<RequestLine>
    requires i <= |line|
    decreases |line| - i
  {
    if i == |line| then None
    else if line[i] == ' ' then SecondSpace(line, i, i + 1)
    else FirstSpace(line, i + 1)
  }

  /** The scan for the second space from `j` on, the first one at `i`; the third part keeps the rest. */
  function SecondSpace(line: string, i: nat, j: nat): Option<RequestLine>
    requires i < j <= |line|
    decreases |line| - j
  {
    if j == |line| then None
    else if line[j] == ' ' then Some(RequestLine(line[..i], line[i + 1..j], line[j + 1..]))
    else SecondSpace(line, i, j + 1)
  }

  /** A request line as a client writes it. */
  function RequestLineText(r: RequestLine): string
  {
    r.verb + " " + r.path + " " + r.version
  }

  /** What the scan for the second space finds: the split, or no second space. */
  lemma {:induction false} SecondSpaceFacts(line: string, i: nat, j: nat)
    requires i < j <= |line| && line[i] == ' '
    requires forall k :: 0 <= k < i ==> line[k] != ' '
    requires forall k :: i < k < j ==> line[k] != ' '
    ensures var r := SecondSpace(line, i, j);
            && (r.Some? ==> RequestLineText(r.value) == line && ' ' !in r.value.verb && ' ' !in r.value.path)
            && (r.None? <==> forall a, b :: 0 <= a < b < |line| ==> !(line[a] == ' ' && line[b] == ' '))
    decreases |line| - j
  {
    if j == |line| {
      forall a, b | 0 <= a < b < |line| && line[a] == ' '
        ensures line[b] != ' '
      {
        assert a == i;
      }
    } else if line[j] == ' ' {
      var r := SecondSpace(line, i, j).value;
      assert RequestLineText(r) == line[..i] + [' '] + line[i + 1..j] + [' '] + line[j + 1..];
      assert line == line[..i] + [' '] + line[i + 1..j] + [' '] + line[j + 1..];
      assert forall k :: 0 <= k < |r.verb| ==> r.verb[k] == line[k];
      assert forall k :: 0 <= k < |r.path| ==> r.path[k] == line[i + 1 + k];
    } else {
      SecondSpaceFacts(line, i, j + 1);
    }
  }

  /** What the scan for the first space finds: the split, or fewer than two spaces. */
  lemma {:induction false} FirstSpaceFacts(line: string, i: nat)
    requires i <= |line|
    requires forall k :: 0 <= k < i ==> line[k] != ' '
    ensures var r := FirstSpace(line, i);
            && (r.Some? ==> RequestLineText(r.value) == line && ' ' !in r.value.verb && ' ' !in r.value.path)
            && (r.None? <==> forall a, b :: 0 <= a < b < |line| ==> !(line[a] == ' ' && line[b] == ' '))
    decreases |line| - i
  {
    if i == |line| {
    } else if line[i] == ' ' {
      SecondSpaceFacts(line, i, i + 1);
    } else {
      FirstSpaceFacts(line, i + 1);
    }
  }

  /** A request line whose method and path have no space in them is read back as written. */
  lemma RequestLineRoundTrip(r: RequestLine)
    requires ' ' !in r.verb && ' ' !in r.path
    ensures ParseRequestLine(RequestLineText(r)) == Some(r)
  {
    var line := RequestLineText(r);
    var i, j := |r.verb|, |r.verb| + 1 + |r.path|;
    assert line == r.verb + [' '] + r.path + [' '] + r.version;
    assert forall k :: 0 <= k < i ==> line[k] == r.verb[k];
    assert forall k :: i < k < j ==> line[k] == r.path[k - i - 1];
    FirstSpaceAt(line, 0, i);
    SecondSpaceAt(line, i, i + 1, j);
    assert line[..i] == r.verb && line[i + 1..j] == r.path && line[j + 1..] == r.version;
  }

  /** A request line as a client writes it is not blank and is read back as written. */
  lemma RequestLineRead(r: RequestLine)
    requires ' ' !in r.verb && ' ' !in r.path && r.verb != "" && Printable(RequestLineText(r))
    ensures var text := RequestLineText(r);
            text != [] && !IsWhiteSpace(text[0]) && !AllWhite(text) && ParseRequestLine(text) == Some(r)
  {
    assert RequestLineText(r)[0] == r.verb[0];
    RequestLineRoundTrip(r);
  }

  /** The scan for the first space stops at the first one. */
  lemma {:induction false} FirstSpaceAt(line: string, i: nat, k: nat)
    requires i <= k < |line| && line[k] == ' '
    requires forall m :: i <= m < k ==> line[m] != ' '
    ensures FirstSpace(line, i) == SecondSpace(line, k, k + 1)
    decreases k - i
  {
    if i < k {
      FirstSpaceAt(line, i + 1, k);
    }
  }

  /** The scan for the second space stops at the first one after `j`. */
  lemma {:induction false} SecondSpaceAt(line: string, i: nat, j: nat, k: nat)
    requires i < j <= k < |line| && line[k] == ' '
    requires forall m :: j <= m < k ==> line[m] != ' '
    ensures SecondSpace(line, i, j) == Some(RequestLine(line[..i], line[i + 1..k], line[k + 1..]))
    decreases k - j
  {
    if j < k {
      SecondSpaceAt(line, i, j + 1, k);
    }
  }

  /** Parsing loses nothing: the parts joined with single spaces are the line, and the first two hold no space. */
  lemma ParsedRequestLine(line: string)
    ensures ParseRequestLine(line).Some? ==>
              var r := ParseRequestLine(line).value;
              RequestLineText(r) == line && ' ' !in r.verb && ' ' !in r.path
  {
    FirstSpaceFacts(line, 0);
  }

  /** A request line is malformed exactly when it does not hold two spaces. */
  lemma MalformedRequestLine(line: string)
    ensures ParseRequestLine(line).None? <==> forall i, j :: 0 <= i < j < |line| ==> !(line[i] == ' ' && line[j] == ' ')
  {
    FirstSpaceFacts(line, 0);
  }

  // ---------------------------------------------------------------------
  // Header lines
  // ---------------------------------------------------------------------

  /**
   * A header line: the text before its first ':' and the text after it,
   * both trimmed; None when there is no ':' or the line starts with one, and
   * the reader skips the line.
   */
  function HeaderLine(line: string): Option<Header>
  {
    HeaderLineFrom(line, 0)
  }

  /** IndexOf(':') scanning from position `i` on, and the split at the ':' it finds. */
  function HeaderLineFrom(line: string, i: nat): Option<Header>
    requires i <= |line|
    decreases |line| - i
  {
    if i == |line| then None
    else if line[i] == ':' then (if i == 0 then None else Some((Trim(line[..i]), Trim(line[i + 1..]))))
    else HeaderLineFrom(line, i + 1)
  }

  /** The scan stops at the first ':' at or after `i`. */
  lemma {:induction false} HeaderLineSplit(line: string, i: nat, j: nat)
    requires i <= j < |line| && line[j] == ':'
    requires forall k :: i <= k < j ==> line[k] != ':'
    ensures HeaderLineFrom(line, i) == if j == 0 then None else Some((Trim(line[..j]), Trim(line[j + 1..])))
    decreases j - i
  {
    if i < j {
      HeaderLineSplit(line, i + 1, j);
    }
  }

  /** The scan finds nothing when no ':' is left. */
  lemma {:induction false} HeaderLineNone(line: string, i: nat)
    requires i <= |line|
    requires forall k :: i <= k < |line| ==> line[k] != ':'
    ensures HeaderLineFrom(line, i) == None
    decreases |line| - i
  {
    if i < |line| {
      HeaderLineNone(line, i + 1);
    }
  }

  /** A header as `$"{header.Key}: {header.Value}"` writes it, without the line end. */
  function HeaderText(h: Header): string
  {
    h.0 + ": " + h.1
  }

  /** Text that stays one line of ASCII and has no white space at either end. */
  predicate Printable(s: string)
  {
    (forall i :: 0 <= i < |s| ==> s[i] as int < 128 && s[i] != '\r' && s[i] != '\n')
    && (s != [] ==> !IsWhiteSpace(s[0]) && !IsWhiteSpace(s[|s| - 1]))
  }

  /** A header that its own line gives back: a non-empty name without ':'. */
  predicate WellFormed(h: Header)
  {
    h.0 != "" && ':' !in h.0 && Printable(h.0) && Printable(h.1)
  }

  /** A well-formed header's line is read back as that header. */
  lemma HeaderLineOf(h: Header)
    requires WellFormed(h)
    ensures HeaderLine(HeaderText(h)) == Some(h)
  {
    NameThenValue(h, HeaderText(h));
    TrimmedParts(h);
  }

  /** A header's line splits at the ':' right after the name. */
  lemma NameThenValue(h: Header, s: string)
    requires h.0 != "" && ':' !in h.0 && s == HeaderText(h)
    ensures HeaderLine(s) == Some((Trim(h.0), Trim(" " + h.1)))
  {
    assert s == h.0 + [':'] + (" " + h.1);
    assert forall k :: 0 <= k < |h.0| ==> s[k] == h.0[k];
    HeaderLineSplit(s, 0, |h.0|);
    assert s[..|h.0|] == h.0 && s[|h.0| + 1..] == " " + h.1;
  }

  /** Trimming leaves a printable name as it is, and a printable value once the space before it is gone. */
  lemma TrimmedParts(h: Header)
    requires Printable(h.0) && Printable(h.1)
    ensures Trim(h.0) == h.0 && Trim(" " + h.1) == h.1
  {
    TrimOf("", h.0, "");
    assert "" + h.0 + "" == h.0;
    TrimOf(" ", h.1, "");
    assert " " + h.1 + "" == " " + h.1;
  }

  /** The lines the reader skips are exactly those without a ':' after their first character. */
  lemma HeaderLineSkipped(line: string)
    ensures HeaderLine(line).None? <==> ':' !in line || line[0] == ':'
  {
    var j := IndexOf(line, ':');
    if j >= 0 {
      assert forall k :: 0 <= k < j ==> line[..j][k] == line[k];
      HeaderLineSplit(line, 0, j);
    } else {
      HeaderLineNone(line, 0);
    }
  }

  // ---------------------------------------------------------------------
  // Looking a header up
  // ---------------------------------------------------------------------

  /** `headers.FirstOrDefault(h => h.Key.Equals(name, OrdinalIgnoreCase)).Value`: None stands for null. */
  function GetHeader(hs: seq<Header>, name: string): Option<string>
  {
    if hs == [] then None
    else if EqualsIgnoreCase(hs[0].0, name) then Some(hs[0].1)
    else GetHeader(hs[1..], name)
  }

  /** The value is that of the first header whose name matches, and there is none when no name matches. */
  lemma {:induction false} GetHeaderFirst(hs: seq<Header>, name: string)
    ensures (forall j :: 0 <= j < |hs| ==> !EqualsIgnoreCase(hs[j].0, name)) <==> GetHeader(hs, name).None?
    ensures forall i :: 0 <= i < |hs| && EqualsIgnoreCase(hs[i].0, name)
                        && (forall j :: 0 <= j < i ==> !EqualsIgnoreCase(hs[j].0, name)) ==>
                        GetHeader(hs, name) == Some(hs[i].1)
  {
    if hs != [] {
      GetHeaderFirst(hs[1..], name);
      if !EqualsIgnoreCase(hs[0].0, name) {
        forall i | 0 < i < |hs| && EqualsIgnoreCase(hs[i].0, name)
                   && (forall j :: 0 <= j < i ==> !EqualsIgnoreCase(hs[j].0, name))
          ensures GetHeader(hs, name) == Some(hs[i].1)
        {
          assert hs[1..][i - 1] == hs[i];
          assert forall j :: 0 <= j < i - 1 ==> hs[1..][j] == hs[j + 1];
        }
        assert forall j :: 0 <= j < |hs| - 1 ==> hs[1..][j] == hs[j + 1];
      }
    }
  }

  /** A single header: its value when its name matches. */
  lemma GetHeaderSingle(h: Header, name: string)
    ensures GetHeader([h], name) == if EqualsIgnoreCase(h.0, name) then Some(h.1) else None
  {
    assert [h][1..] == [];
  }

  /** Names of different lengths never match. */
  lemma NamesOfLength(a: string, b: string)
    requires |a| != |b|
    ensures !EqualsIgnoreCase(a, b)
  {
    if EqualsIgnoreCase(a, b) {
      EqualsIgnoreCaseSameLength(a, b);
    }
  }

  /** The first match is the dictionary lookup of the WRM/WRM.Core request: both find the earliest matching name. */
  lemma GetHeaderIsGet(hs: seq<Header>, name: string)
    ensures GetHeader(hs, name) == HttpMessage.Get(hs, name)
  {
    GetHeaderFirst(hs, name);
    var i := HttpMessage.Find(hs, name);
  }

  /** In headers followed by more headers, the earlier ones are looked at first. */
  lemma {:induction false} GetHeaderAppend(a: seq<Header>, b: seq<Header>, name: string)
    ensures GetHeader(a + b, name) == if GetHeader(a, name).Some? then GetHeader(a, name) else GetHeader(b, name)
  {
    if a != [] {
      assert (a + b)[0] == a[0] && (a + b)[1..] == a[1..] + b;
      GetHeaderAppend(a[1..], b, name);
    } else {
      assert a + b == b;
    }
  }

  // ---------------------------------------------------------------------
  // Keep-alive
  // ---------------------------------------------------------------------

  /**
   * Whether the connection stays open after a request: an HTTP/1.0 request
   * keeps it only with "Connection: keep-alive", any other version closes it
   * only with "Connection: close" (both ignoring case; None is an absent
   * header).
   */
  function KeepAliveOf(version: string, connection: Option<string>): bool
  {
    if StartsWith(version, "HTTP/1.0") then connection.Some? && EqualsIgnoreCase(connection.value, "keep-alive")
    else !(connection.Some? && EqualsIgnoreCase(connection.value, "close"))
  }

  lemma KeepAliveCloseDiffer(c: string)
    ensures !(EqualsIgnoreCase(c, "close") && EqualsIgnoreCase(c, "keep-alive"))
  {
    if EqualsIgnoreCase(c, "close") {
      EqualsIgnoreCaseSameLength(c, "close");
      if EqualsIgnoreCase(c, "keep-alive") {
        EqualsIgnoreCaseSameLength(c, "keep-alive");
      }
    }
  }

  /**
   * The decision, both ways: "close" always closes, "keep-alive" always
   * keeps, and without either the version decides (HTTP/1.0 closes, every
   * other version keeps).
   */
  lemma KeepAliveCases(version: string, connection: Option<string>)
    ensures connection.Some? && EqualsIgnoreCase(connection.value, "close") ==> !KeepAliveOf(version, connection)
    ensures connection.Some? && EqualsIgnoreCase(connection.value, "keep-alive") ==> KeepAliveOf(version, connection)
    ensures !(connection.Some? && (EqualsIgnoreCase(connection.value, "close") || EqualsIgnoreCase(connection.value, "keep-alive"))) ==>
              (KeepAliveOf(version, connection) <==> !StartsWith(version, "HTTP/1.0"))
  {
    if connection.Some? {
      KeepAliveCloseDiffer(connection.value);
    }
  }

  // ---------------------------------------------------------------------
  // Writing a head
  // ---------------------------------------------------------------------

  /** Each header as `{Key}: {Value}` and CR LF, in order. */
  function HeaderLines(hs: seq<Header>): string
  {
    if hs == [] then "" else HeaderText(hs[0]) + "\r\n" + HeaderLines(hs[1..])
  }

  /** With the empty line after them, the lines are the first header's line, then the others' with the empty line. */
  lemma HeaderLinesCons(hs: seq<Header>)
    requires hs != []
    ensures HeaderLines(hs) + "\r\n" == (HeaderText(hs[0]) + "\r\n") + (HeaderLines(hs[1..]) + "\r\n")
  {
    ConcatAssoc(HeaderText(hs[0]) + "\r\n", HeaderLines(hs[1..]), "\r\n");
  }

  /** One more header appends one more line. */
  lemma {:induction false} HeaderLinesSnoc(hs: seq<Header>, h: Header)
    ensures HeaderLines(hs + [h]) == HeaderLines(hs) + HeaderText(h) + "\r\n"
  {
    if hs == [] {
      assert [] + [h] == [h] && [h][1..] == [];
    } else {
      assert (hs + [h])[0] == hs[0] && (hs + [h])[1..] == hs[1..] + [h];
      HeaderLinesSnoc(hs[1..], h);
    }
  }

  lemma {:induction false} HeaderLinesAppend(a: seq<Header>, b: seq<Header>)
    ensures HeaderLines(a + b) == HeaderLines(a) + HeaderLines(b)
  {
    if a == [] {
      assert a + b == b;
    } else {
      assert (a + b)[0] == a[0] && (a + b)[1..] == a[1..] + b;
      HeaderLinesAppend(a[1..], b);
    }
  }

  /** A message head: the first line, the header lines, and the empty line that ends the head. */
  function HeadText(first: string, hs: seq<Header>): string
  {
    first + "\r\n" + HeaderLines(hs) + "\r\n"
  }

  /**
   * The head both response writers build in a StringBuilder: the status
   * line, the handler's header lines (`lines`, already written), the
   * headers the writer adds, and the empty line.
   */
  function Assemble(first: string, hs: seq<Header>, lines: string, added: seq<Header>): (head: string)
    requires lines == HeaderLines(hs)
    ensures head == HeadText(first, hs + added)
  {
    HeaderLinesAppend(hs, added);
    first + "\r\n" + lines + HeaderLines(added) + "\r\n"
  }

  // ---------------------------------------------------------------------
  // Response bodies and header lookups the writers share
  // ---------------------------------------------------------------------

  /** A response body: none, a seekable stream (a MemoryStream over the bytes), or one that cannot seek. */
  datatype Body = NoBody | Seekable(data: Bytes) | Unseekable(data: Bytes)

  /** Some header's name equals `name` ignoring case. */
  predicate HasHeader(hs: seq<Header>, name: string)
  {
    GetHeader(hs, name).Some?
  }

  /** The bytes of a response body, whether or not its stream can seek. */
  function Content(b: Body): Bytes
  {
    if b.NoBody? then [] else b.data
  }

  /** The names the response writers add differ from one another, ignoring case. */
  lemma NamesDiffer()
    ensures !EqualsIgnoreCase("Content-Length", "Connection") && !EqualsIgnoreCase("Content-Length", "Date")
    ensures !EqualsIgnoreCase("Content-Length", "Server") && !EqualsIgnoreCase("Connection", "Date")
    ensures !EqualsIgnoreCase("Connection", "Server") && !EqualsIgnoreCase("Date", "Server")
    ensures !EqualsIgnoreCase("Connection", "Content-Length") && !EqualsIgnoreCase("Date", "Content-Length")
    ensures !EqualsIgnoreCase("Server", "Content-Length") && !EqualsIgnoreCase("Date", "Connection")
    ensures !EqualsIgnoreCase("Server", "Connection") && !EqualsIgnoreCase("Server", "Date")
    ensures !EqualsIgnoreCase("Keep-Alive", "Content-Length") && !EqualsIgnoreCase("Keep-Alive", "Connection")
    ensures !EqualsIgnoreCase("Keep-Alive", "Date") && !EqualsIgnoreCase("Keep-Alive", "Server")
  {
    NamesOfLength("Content-Length", "Connection");
    NamesOfLength("Content-Length", "Date");
    NamesOfLength("Content-Length", "Server");
    NamesOfLength("Connection", "Date");
    NamesOfLength("Connection", "Server");
    NamesOfLength("Date", "Server");
    NamesOfLength("Connection", "Content-Length");
    NamesOfLength("Date", "Content-Length");
    NamesOfLength("Server", "Content-Length");
    NamesOfLength("Date", "Connection");
    NamesOfLength("Server", "Connection");
    NamesOfLength("Server", "Date");
    NamesOfLength("Keep-Alive", "Content-Length");
    NamesOfLength("Keep-Alive", "Date");
    NamesOfLength("Keep-Alive", "Server");
    assert Lower("Keep-Alive")[0] == 'k' && Lower("Connection")[0] == 'c';
  }

  /** One more header: a name is present after it when it was before, or the new header has it. */
  lemma SeenHeader(hs: seq<Header>, h: Header)
    ensures forall name :: HasHeader(hs + [h], name) <==> HasHeader(hs, name) || EqualsIgnoreCase(h.0, name)
  {
    forall name
      ensures HasHeader(hs + [h], name) <==> HasHeader(hs, name) || EqualsIgnoreCase(h.0, name)
    {
      GetHeaderAppend(hs, [h], name);
      assert [h][1..] == [];
    }
  }
}
