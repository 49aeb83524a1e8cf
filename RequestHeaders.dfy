/**
 * HttpRequestHeaders (WRM/WRM.Core): the header list of a parsed request.
 * Add appends every header, so order and duplicates are kept. A header
 * named exactly "Host", "Content-Length", "Transfer-Encoding" or
 * "Connection" (the comparison is case-sensitive) also sets the property of
 * that name, and a "Cookie" header's value is split on ';' into cookies,
 * each piece at its first ':'. The other members of the collection
 * interface throw NotSupportedException.
 */
module RequestHeaders {
  import opened Common
  import opened Strings

  /**
   * `cookie.Split(sep, 2)` as a pair; None when the piece has no `sep`,
   * where `parts[1]` throws. The source splits at ':'.
   */
  function CookiePair(piece: string, sep: char): (r: Option<Header>)
    ensures r.None? <==> sep !in piece
    ensures r.Some? ==> sep !in r.value.0 && piece == r.value.0 + [sep] + r.value.1
  {
    SplitAtMostJoin(piece, sep, 2);
    var parts := SplitAtMost(piece, sep, 2);
    if |parts| < 2 then None
    else
      assert parts == [parts[0]] + parts[1..];
      JoinCons(parts[0], parts[1..], sep);
      Some((parts[0], parts[1]))
  }

  /**
   * The cookies a Cookie value's pieces give, in order, up to the first
   * piece without `sep`; the flag is false when there is such a piece.
   */
  function CookiesOf(pieces: seq<string>, sep: char): (r: (seq<Header>, bool))
    ensures r.1 <==> forall k :: 0 <= k < |pieces| ==> sep in pieces[k]
    ensures |r.0| <= |pieces|
    ensures r.1 ==> |r.0| == |pieces| && forall k :: 0 <= k < |pieces| ==> CookiePair(pieces[k], sep) == Some(r.0[k])
  {
    if pieces == [] then ([], true)
    else
      match CookiePair(pieces[0], sep)
      case None => ([], false)
      case Some(pair) =>
        var tail := CookiesOf(pieces[1..], sep);
        assert forall k :: 1 <= k < |pieces| ==> pieces[k] == pieces[1..][k - 1];
        ([pair] + tail.0, tail.1)
  }

  /** The cookies of one Cookie header value, each piece split at ':' as the source does. */
  function CookiesIn(value: string): (seq<Header>, bool)
  {
    CookiesOf(Split(value, ';'), ':')
  }

  /**
   * The cookies of one Cookie header value with each piece split at '=',
   * the separator of a `cookie-pair` in section 4.2.1 of RFC 6265.
   */
  function CookiesInFixed(value: string): (seq<Header>, bool)
  {
    CookiesOf(Split(value, ';'), '=')
  }

  /** The last value added under exactly `name`, or None when there was none. */
  function LastExact(hs: seq<Header>, name: string): (r: Option<string>)
    ensures r.None? <==> forall i :: 0 <= i < |hs| ==> hs[i].0 != name
    ensures r.Some? ==> exists i :: 0 <= i < |hs| && hs[i] == (name, r.value)
  {
    if hs == [] then None
    else if hs[|hs| - 1].0 == name then Some(hs[|hs| - 1].1)
    else
      var r := LastExact(hs[..|hs| - 1], name);
      assert forall i :: 0 <= i < |hs| - 1 ==> hs[..|hs| - 1][i] == hs[i];
      r
  }

  /** The cookies of every Cookie header, in order. */
  function AllCookies(hs: seq<Header>): seq<Header>
  {
    if hs == [] then []
    else AllCookies(hs[..|hs| - 1]) + (if hs[|hs| - 1].0 == "Cookie" then CookiesIn(hs[|hs| - 1].1).0 else [])
  }

  class HttpRequestHeaders {
    var headers: seq<Header>
    var host: Option<string>
    var contentLength: Option<string>
    var connection: Option<string>
    var transferEncoding: Option<string>
    var cookies: seq<Header>

    /** Each property holds the last value added under exactly its name, and the cookies are those of every Cookie header. */
    ghost predicate Valid()
      reads this
    {
      host == LastExact(headers, "Host") && contentLength == LastExact(headers, "Content-Length")
      && connection == LastExact(headers, "Connection") && transferEncoding == LastExact(headers, "Transfer-Encoding")
      && cookies == AllCookies(headers)
    }

    constructor ()
      ensures Valid() && headers == [] && cookies == []
      ensures host == None && contentLength == None && connection == None && transferEncoding == None
    {
      headers := [];
      host := None;
      contentLength := None;
      connection := None;
      transferEncoding := None;
      cookies := [];
    }

    /** `Count`. */
    function Count(): nat
      reads this
    {
      |headers|
    }

    /**
     * Add: the property named exactly like the header takes its value; a
     * Cookie value adds its cookies, and throws IndexOutOfRangeException at
     * the first piece without ':', before the header is appended; otherwise
     * the header is appended.
     */
    method Add(name: string, value: string) returns (r: Result<()>)
      modifies this
      ensures host == (if name == "Host" then Some(value) else old(host))
      ensures contentLength == (if name == "Content-Length" then Some(value) else old(contentLength))
      ensures transferEncoding == (if name == "Transfer-Encoding" then Some(value) else old(transferEncoding))
      ensures connection == (if name == "Connection" then Some(value) else old(connection))
      ensures cookies == old(cookies) + (if name == "Cookie" then CookiesIn(value).0 else [])
      ensures r.Ok? <==> name != "Cookie" || CookiesIn(value).1
      ensures r.Ok? ==> headers == old(headers) + [(name, value)]
      ensures r.Err? ==> r.failure == IndexOutOfRange && headers == old(headers)
      ensures old(Valid()) && r.Ok? ==> Valid()
    {
      if name == "Host" {
        host := Some(value);
      } else if name == "Content-Length" {
        contentLength := Some(value);
      } else if name == "Transfer-Encoding" {
        transferEncoding := Some(value);
      } else if name == "Connection" {
        connection := Some(value);
      } else if name == "Cookie" {
        var parsed := CookiesIn(value);
        cookies := cookies + parsed.0;
        if !parsed.1 {
          return Err(IndexOutOfRange);
        }
      }
      assert cookies == old(cookies) + (if name == "Cookie" then CookiesIn(value).0 else []);
      LastExactAppend(old(headers), (name, value));
      headers := headers + [(name, value)];
      assert headers[..|headers| - 1] == old(headers);
      r := Ok(());
    }

    /** Clear throws NotSupportedException and changes nothing. */
    method Clear() returns (r: Result<()>)
      ensures r == Err(NotSupported)
    {
      r := Err(NotSupported);
    }

    /** Contains throws NotSupportedException. */
    method Contains(item: Header) returns (r: Result<bool>)
      ensures r == Err(NotSupported)
    {
      r := Err(NotSupported);
    }

    /** CopyTo throws NotSupportedException and writes nothing. */
    method CopyTo(target: array<Header>, index: int) returns (r: Result<()>)
      ensures r == Err(NotSupported)
    {
      r := Err(NotSupported);
    }

    /** Remove throws NotSupportedException and changes nothing. */
    method Remove(item: Header) returns (r: Result<bool>)
      ensures r == Err(NotSupported)
    {
      r := Err(NotSupported);
    }
  }

  /** Appending a header changes the last value of its own name only. */
  lemma LastExactAppend(hs: seq<Header>, h: Header)
    ensures LastExact(hs + [h], "Host") == if h.0 == "Host" then Some(h.1) else LastExact(hs, "Host")
    ensures LastExact(hs + [h], "Content-Length") == if h.0 == "Content-Length" then Some(h.1) else LastExact(hs, "Content-Length")
    ensures LastExact(hs + [h], "Connection") == if h.0 == "Connection" then Some(h.1) else LastExact(hs, "Connection")
    ensures LastExact(hs + [h], "Transfer-Encoding") == if h.0 == "Transfer-Encoding" then Some(h.1) else LastExact(hs, "Transfer-Encoding")
    ensures AllCookies(hs + [h]) == AllCookies(hs) + if h.0 == "Cookie" then CookiesIn(h.1).0 else []
  {
    assert (hs + [h])[..|hs|] == hs;
  }

  /** A piece `name` `sep` `value` whose name has no `sep` splits back into that name and value. */
  lemma CookiePairOf(name: string, value: string, sep: char)
    requires sep !in name
    ensures CookiePair(name + [sep] + value, sep) == Some((name, value))
  {
    var p := name + [sep] + value;
    IndexOfAfter(name, sep, value);
    SplitAtMostUnfold(p, sep, 2);
    assert p[..|name|] == name && p[|name| + 1..] == value;
  }

  /**
   * A Cookie value written as `name` `sep` `value` pieces joined with ';'
   * gives back exactly those pairs, in order, when split at `sep`.
   */
  lemma JoinedCookies(pairs: seq<Header>, sep: char)
    requires |pairs| >= 1 && sep != ';'
    requires forall k :: 0 <= k < |pairs| ==> sep !in pairs[k].0 && ';' !in pairs[k].0 && ';' !in pairs[k].1
    ensures var pieces := seq(|pairs|, k requires 0 <= k < |pairs| => pairs[k].0 + [sep] + pairs[k].1);
      CookiesOf(Split(Join(pieces, ';'), ';'), sep) == (pairs, true)
  {
    var pieces := seq(|pairs|, k requires 0 <= k < |pairs| => pairs[k].0 + [sep] + pairs[k].1);
    forall k | 0 <= k < |pairs|
      ensures ';' !in pieces[k] && CookiePair(pieces[k], sep) == Some(pairs[k])
    {
      CookiePairOf(pairs[k].0, pairs[k].1, sep);
      assert forall i :: 0 <= i < |pieces[k]| ==> pieces[k][i] in pairs[k].0 || pieces[k][i] in pairs[k].1 || pieces[k][i] == sep;
    }
    SplitOfJoin(pieces, ';');
    var r := CookiesOf(Split(Join(pieces, ';'), ';'), sep);
    assert r.1;
    assert r.0 == pairs;
  }

  /**
   * A Cookie value written as `name:value` pieces joined with ';' gives
   * back exactly those pairs, in order, and adds without throwing.
   */
  lemma ColonCookies(pairs: seq<Header>)
    requires |pairs| >= 1
    requires forall k :: 0 <= k < |pairs| ==> ':' !in pairs[k].0 && ';' !in pairs[k].0 && ';' !in pairs[k].1
    ensures var pieces := seq(|pairs|, k requires 0 <= k < |pairs| => pairs[k].0 + ":" + pairs[k].1);
      CookiesIn(Join(pieces, ';')) == (pairs, true)
  {
    JoinedCookies(pairs, ':');
  }

  /**
   * With pieces split at '=', a Cookie value written the way section 4.2.2
   * of RFC 6265 sends it, `name=value` pairs joined with ';', gives back
   * exactly those pairs, in order.
   */
  lemma EqualsCookies(pairs: seq<Header>)
    requires |pairs| >= 1
    requires forall k :: 0 <= k < |pairs| ==> '=' !in pairs[k].0 && ';' !in pairs[k].0 && ';' !in pairs[k].1
    ensures var pieces := seq(|pairs|, k requires 0 <= k < |pairs| => pairs[k].0 + "=" + pairs[k].1);
      CookiesInFixed(Join(pieces, ';')) == (pairs, true)
  {
    JoinedCookies(pairs, '=');
  }

  /**
   * A standard `name=value` cookie (RFC 6265 section 4.2.1) has no ':', so
   * adding a Cookie header made of one throws.
   */
  lemma EqualsCookieRejected(name: string, value: string)
    requires ':' !in name && ':' !in value && ';' !in name && ';' !in value
    ensures !CookiesIn(name + "=" + value).1
  {
    var s := name + "=" + value;
    assert forall i :: 0 <= i < |s| ==> s[i] in name || s[i] in value || s[i] == '=';
    FirstPiece(s, ';', []);
    assert Split(s, ';') == [s];
  }
}
