/**
 * The .NET string operations the HTTP/1 engine relies on: white space as
 * `Char.IsWhiteSpace` classifies it, `Trim`, `IndexOf`, `Split` with and
 * without a count, ordinal substring search ignoring ASCII case,
 * `Encoding.ASCII.GetBytes`, and the integer parsers `long.TryParse` and
 * `int.TryParse(…, NumberStyles.HexNumber)` under the invariant culture.
 */
module Strings {
  import opened Common
  import opened Decimal

  // ---------------------------------------------------------------------
  // White space and trimming
  // ---------------------------------------------------------------------

  /** `Char.IsWhiteSpace`: the Unicode White_Space characters. */
  predicate IsWhiteSpace(c: char)
  {
    var v := c as int;
    (9 <= v <= 13) || v == 32 || v == 0x85 || v == 0xA0 || v == 0x1680 || (0x2000 <= v <= 0x200A)
    || v == 0x2028 || v == 0x2029 || v == 0x202F || v == 0x205F || v == 0x3000
  }

  /** The white space `NumberStyles.AllowLeadingWhite`/`AllowTrailingWhite` accept: U+0009 to U+000D and U+0020. */
  predicate IsNumberWhite(c: char)
  {
    9 <= c as int <= 13 || c == ' '
  }

  predicate AllWhite(s: string)
  {
    forall i :: 0 <= i < |s| ==> IsWhiteSpace(s[i])
  }

  /** `string.IsNullOrWhiteSpace`. */
  predicate IsNullOrWhiteSpace(s: Option<string>)
  {
    s.None? || AllWhite(s.value)
  }

  /** The white space a trim strips: a number parser's when `number`, `Char.IsWhiteSpace` otherwise. */
  predicate Blank(c: char, number: bool)
  {
    if number then IsNumberWhite(c) else IsWhiteSpace(c)
  }

  function TrimStart(s: string, number: bool): (r: string)
    ensures |r| <= |s|
    ensures r != [] ==> !Blank(r[0], number)
  {
    if s != [] && Blank(s[0], number) then TrimStart(s[1..], number) else s
  }

  function TrimEnd(s: string, number: bool): (r: string)
    ensures |r| <= |s| && r == s[..|r|]
    ensures r != [] ==> !Blank(r[|r| - 1], number)
  {
    if s != [] && Blank(s[|s| - 1], number) then TrimEnd(s[..|s| - 1], number) else s
  }

  /** Both ends stripped of blank characters. */
  function TrimBy(s: string, number: bool): (r: string)
    ensures |r| <= |s|
    ensures r != [] ==> !Blank(r[0], number) && !Blank(r[|r| - 1], number)
  {
    TrimEnd(TrimStart(s, number), number)
  }

  /** `String.Trim()`. */
  function Trim(s: string): (r: string)
    ensures |r| <= |s|
    ensures r != [] ==> !IsWhiteSpace(r[0]) && !IsWhiteSpace(r[|r| - 1])
  {
    TrimBy(s, false)
  }

  /** Leading white space, and nothing else, is stripped from the front. */
  lemma {:induction false} TrimStartOf(before: string, rest: string)
    requires AllWhite(before)
    requires rest != [] ==> !IsWhiteSpace(rest[0])
    ensures TrimStart(before + rest, false) == rest
    decreases |before|
  {
    if before != [] {
      assert (before + rest)[0] == before[0];
      assert (before + rest)[1..] == before[1..] + rest;
      TrimStartOf(before[1..], rest);
    } else {
      assert before + rest == rest;
    }
  }

  /** Trailing white space, and nothing else, is stripped from the back. */
  lemma {:induction false} TrimEndOf(rest: string, after: string)
    requires AllWhite(after)
    requires rest != [] ==> !IsWhiteSpace(rest[|rest| - 1])
    ensures TrimEnd(rest + after, false) == rest
    decreases |after|
  {
    if after != [] {
      var s := rest + after;
      assert s[|s| - 1] == after[|after| - 1];
      assert s[..|s| - 1] == rest + after[..|after| - 1];
      TrimEndOf(rest, after[..|after| - 1]);
    } else {
      assert rest + after == rest;
    }
  }

  /**
   * Trim removes exactly the white space around the text: text that neither
   * begins nor ends with white space, between white space on both sides,
   * comes back unchanged.
   */
  lemma TrimOf(before: string, mid: string, after: string)
    requires AllWhite(before) && AllWhite(after)
    requires mid != [] ==> !IsWhiteSpace(mid[0]) && !IsWhiteSpace(mid[|mid| - 1])
    ensures Trim(before + mid + after) == mid
  {
    if mid == [] {
      assert before + mid + after == (before + after) + [];
      TrimStartOf(before + after, []);
      TrimEndOf([], []);
    } else {
      assert before + mid + after == before + (mid + after);
      TrimStartOf(before, mid + after);
      TrimEndOf(mid, after);
    }
  }

  // ---------------------------------------------------------------------
  // Searching and splitting
  // ---------------------------------------------------------------------

  /** `s.IndexOf(c)`: the position of the first `c`, or -1. */
  function IndexOf(s: string, c: char): (r: int)
    ensures -1 <= r < |s|
    ensures r >= 0 ==> s[r] == c && c !in s[..r]
    ensures r < 0 <==> c !in s
  {
    if s == [] then -1
    else if s[0] == c then 0
    else
      var i := IndexOf(s[1..], c);
      if i < 0 then -1
      else
        assert s[..i + 1] == [s[0]] + s[1..][..i];
        i + 1
  }

  /** The pieces joined back with `c` between them. */
  function Join(pieces: seq<string>, c: char): string
    requires |pieces| >= 1
  {
    if |pieces| == 1 then pieces[0] else pieces[0] + [c] + Join(pieces[1..], c)
  }

  /** `s.Split(c)`: every piece between two `c`s, empty pieces included. */
  function Split(s: string, c: char): (r: seq<string>)
    ensures |r| >= 1
    ensures forall k :: 0 <= k < |r| ==> c !in r[k]
    decreases |s|
  {
    var i := IndexOf(s, c);
    if i < 0 then [s]
    else
      var rest := Split(s[i + 1..], c);
      PrependPiece(s[..i], rest, c);
      [s[..i]] + rest
  }

  /** A piece without the separator put before pieces without it. */
  lemma PrependPiece(a: string, rest: seq<string>, c: char)
    requires c !in a && forall k :: 0 <= k < |rest| ==> c !in rest[k]
    ensures forall k :: 0 <= k < |[a] + rest| ==> c !in ([a] + rest)[k]
  {
    assert forall k :: 1 <= k < |[a] + rest| ==> ([a] + rest)[k] == rest[k - 1];
  }

  /** `s.Split(c, n)`: at most `n` pieces; the last one keeps the rest of the text, separators included. */
  function SplitAtMost(s: string, c: char, n: nat): (r: seq<string>)
    requires n >= 1
    ensures 1 <= |r| <= n
    ensures forall k :: 0 <= k < |r| - 1 ==> c !in r[k]
    ensures |r| < n ==> c !in r[|r| - 1]
    decreases n
  {
    var i := IndexOf(s, c);
    if n == 1 || i < 0 then [s]
    else
      var rest := SplitAtMost(s[i + 1..], c, n - 1);
      var r := [s[..i]] + rest;
      assert forall k :: 1 <= k < |r| ==> r[k] == rest[k - 1];
      r
  }

  /** Splitting loses nothing: the pieces joined with the separator are the text. */
  lemma {:induction false} SplitJoin(s: string, c: char)
    ensures Join(Split(s, c), c) == s
    decreases |s|
  {
    var i := IndexOf(s, c);
    if i >= 0 {
      var r := Split(s, c);
      assert r[0] == s[..i] && r[1..] == Split(s[i + 1..], c);
      SplitJoin(s[i + 1..], c);
      Around(s, i);
    }
  }

  lemma {:induction false} SplitAtMostJoin(s: string, c: char, n: nat)
    requires n >= 1
    ensures Join(SplitAtMost(s, c, n), c) == s
    decreases n
  {
    var i := IndexOf(s, c);
    if n > 1 && i >= 0 {
      var tail := s[i + 1..];
      SplitAtMostUnfold(s, c, n);
      SplitAtMostJoin(tail, c, n - 1);
      JoinCons(s[..i], SplitAtMost(tail, c, n - 1), c);
      Around(s, i);
    }
  }

  /** A text is what comes before position `i`, the element there, and what follows. */
  lemma Around<T>(s: seq<T>, i: nat)
    requires i < |s|
    ensures s == s[..i] + [s[i]] + s[i + 1..]
  {
  }

  lemma SplitAtMostUnfold(s: string, c: char, n: nat)
    requires n > 1 && IndexOf(s, c) >= 0
    ensures SplitAtMost(s, c, n) == [s[..IndexOf(s, c)]] + SplitAtMost(s[IndexOf(s, c) + 1..], c, n - 1)
  {
  }

  lemma JoinCons(a: string, rest: seq<string>, c: char)
    requires |rest| >= 1
    ensures Join([a] + rest, c) == a + [c] + Join(rest, c)
  {
    assert ([a] + rest)[1..] == rest;
  }

  /** The first separator after text without one is found right after that text. */
  lemma IndexOfAfter(s: string, c: char, rest: string)
    requires c !in s
    ensures IndexOf(s + [c] + rest, c) == |s|
  {
    var t := s + [c] + rest;
    assert t[|s|] == c && t[..|s|] == s;
    assert forall k :: 0 <= k < |s| ==> t[k] == s[k];
  }

  /** The first piece of `Split` is the text before the first separator. */
  lemma FirstPiece(s: string, c: char, rest: string)
    requires c !in s
    ensures Split(s + [c] + rest, c) == [s] + Split(rest, c) && Split(s, c) == [s]
  {
    var t := s + [c] + rest;
    IndexOfAfter(s, c, rest);
    assert t[..|s|] == s && t[|s| + 1..] == rest;
  }

  /** A count-limited split of text without a separator, a separator and more text: that text first. */
  lemma SplitAtMostAfter(s: string, c: char, rest: string, n: nat)
    requires c !in s && n > 1
    ensures SplitAtMost(s + [c] + rest, c, n) == [s] + SplitAtMost(rest, c, n - 1)
  {
    var t := s + [c] + rest;
    IndexOfAfter(s, c, rest);
    SplitAtMostUnfold(t, c, n);
    assert t[..|s|] == s && t[|s| + 1..] == rest;
  }

  /** Splitting pieces joined with a separator none of them contains gives the pieces back. */
  lemma {:induction false} SplitOfJoin(pieces: seq<string>, c: char)
    requires |pieces| >= 1 && forall k :: 0 <= k < |pieces| ==> c !in pieces[k]
    ensures Split(Join(pieces, c), c) == pieces
    decreases |pieces|
  {
    if |pieces| == 1 {
      FirstPiece(pieces[0], c, []);
    } else {
      var tail := pieces[1..];
      assert pieces == [pieces[0]] + tail;
      JoinCons(pieces[0], tail, c);
      FirstPiece(pieces[0], c, Join(tail, c));
      assert forall k :: 0 <= k < |tail| ==> tail[k] == pieces[k + 1];
      SplitOfJoin(tail, c);
    }
  }

  /** `s.Contains(sub, StringComparison.OrdinalIgnoreCase)`. */
  predicate ContainsIgnoreCase(s: string, sub: string)
    decreases |s|
  {
    StartsWithIgnoreCase(s, sub) || (s != [] && ContainsIgnoreCase(s[1..], sub))
  }

  /** An occurrence anywhere in the text is found. */
  lemma {:induction false} ContainsAt(before: string, sub: string, after: string)
    ensures ContainsIgnoreCase(before + sub + after, sub)
    decreases |before|
  {
    var s := before + sub + after;
    if before == [] {
      assert s[..|sub|] == sub;
    } else {
      assert s[1..] == before[1..] + sub + after;
      ContainsAt(before[1..], sub, after);
    }
  }

  /** Text shorter than the searched text does not contain it. */
  lemma {:induction false} ContainsLonger(s: string, sub: string)
    requires |s| < |sub|
    ensures !ContainsIgnoreCase(s, sub)
    decreases |s|
  {
    if s != [] {
      ContainsLonger(s[1..], sub);
    }
  }

  // ---------------------------------------------------------------------
  // Encoding.ASCII.GetBytes
  // ---------------------------------------------------------------------

  /** `Encoding.ASCII.GetBytes`: one octet per character, '?' for a character above U+007F. */
  function AsciiBytes(s: string): (r: Bytes)
    ensures |r| == |s|
    ensures forall i :: 0 <= i < |s| ==> r[i] == if s[i] as int < 128 then s[i] as int else 0x3F
  {
    seq(|s|, i requires 0 <= i < |s| => if s[i] as int < 128 then s[i] as int else 0x3F)
  }

  /** Encoding distributes over concatenation, so text written piece by piece is the text encoded at once. */
  lemma AsciiConcat(a: string, b: string)
    ensures AsciiBytes(a + b) == AsciiBytes(a) + AsciiBytes(b)
  {
    assert forall i :: 0 <= i < |a| ==> (a + b)[i] == a[i];
  }

  // ---------------------------------------------------------------------
  // long.TryParse and int.TryParse(…, HexNumber)
  // ---------------------------------------------------------------------

  const TWO63: int := 0x8000_0000_0000_0000

  /**
   * `long.TryParse(s, out v)`: optional white space, an optional '+' or '-',
   * one or more decimal digits, optional white space, and a value that fits
   * in 64 bits; None for null text or anything else.
   */
  function ParseLong(s: Option<string>): (r: Option<int>)
    ensures r.Some? ==> -TWO63 <= r.value < TWO63
  {
    if s.None? then None
    else
      var t := TrimBy(s.value, true);
      var negative := t != [] && t[0] == '-';
      var digits := if t != [] && (t[0] == '-' || t[0] == '+') then t[1..] else t;
      if digits == [] || !AllDigits(digits) then None
      else
        var magnitude: int := Value(digits);
        var v := if negative then -magnitude else magnitude;
        if -TWO63 <= v < TWO63 then Some(v) else None
  }

  /** Every 64-bit integer's decimal text parses back to it. */
  lemma ParseLongText(n: int)
    requires -TWO63 <= n < TWO63
    ensures ParseLong(Some(IntText(n))) == Some(n)
  {
    var m := if n < 0 then -n else n;
    ValueOfDigits(m);
    if n < 0 {
      ParseNegative(Digits(m), m);
    } else {
      ParseUnsigned(Digits(m), m);
    }
  }

  /** A minus sign and digits parse to the negated value of the digits. */
  lemma ParseNegative(d: string, v: int)
    requires d != [] && AllDigits(d) && v == Value(d) <= TWO63
    ensures ParseLong(Some("-" + d)) == Some(-v)
  {
    var s := "-" + d;
    assert s[|s| - 1] == d[|d| - 1];
    assert TrimBy(s, true) == s;
    assert s[1..] == d;
  }

  /** Digits alone parse to their value. */
  lemma ParseUnsigned(d: string, v: int)
    requires d != [] && AllDigits(d) && v == Value(d) < TWO63
    ensures ParseLong(Some(d)) == Some(v)
  {
    assert TrimBy(d, true) == d;
  }

  predicate IsHexDigit(c: char)
  {
    ('0' <= c <= '9') || ('a' <= c <= 'f') || ('A' <= c <= 'F')
  }

  function HexDigitValue(c: char): (d: nat)
    requires IsHexDigit(c)
    ensures d < 16
  {
    if '0' <= c <= '9' then c as int - '0' as int
    else if 'a' <= c <= 'f' then c as int - 'a' as int + 10
    else c as int - 'A' as int + 10
  }

  predicate AllHex(s: string)
  {
    forall i :: 0 <= i < |s| ==> IsHexDigit(s[i])
  }

  /** The value of hexadecimal digits, most significant first. */
  function HexValue(s: string): nat
    requires AllHex(s)
  {
    if s == [] then 0 else HexValue(s[..|s| - 1]) * 16 + HexDigitValue(s[|s| - 1])
  }

  /**
   * `int.TryParse(s, NumberStyles.HexNumber, null, out v)`: optional white
   * space around one or more hexadecimal digits whose value fits in 32
   * bits; a value of 2^31 or more is read as the two's-complement negative
   * number.
   */
  function ParseHex32(s: string): (r: Option<int32>)
  {
    var t := TrimBy(s, true);
    if t == [] || !AllHex(t) then None
    else if HexValue(t) < TWO32 then Some(Wrap32(HexValue(t)))
    else None
  }

  /** The lower-case hexadecimal digits of `n`, most significant first. */
  function HexDigits(n: nat): (s: string)
    ensures |s| >= 1 && AllHex(s)
    ensures forall i :: 0 <= i < |s| ==> s[i] as int < 128 && !IsWhiteSpace(s[i]) && s[i] != ';'
  {
    var d := n % 16;
    var c := if d < 10 then ('0' as int + d) as char else ('a' as int + d - 10) as char;
    if n < 16 then [c] else HexDigits(n / 16) + [c]
  }

  lemma {:induction false} HexValueOfDigits(n: nat)
    ensures HexValue(HexDigits(n)) == n
  {
    var s := HexDigits(n);
    if n >= 16 {
      assert s[..|s| - 1] == HexDigits(n / 16);
      HexValueOfDigits(n / 16);
    }
  }

  /** Hexadecimal digits of a 32-bit value parse back to its two's-complement reading. */
  lemma ParseHexDigits(n: nat)
    requires n < TWO32
    ensures ParseHex32(HexDigits(n)) == Some(Wrap32(n))
  {
    var s := HexDigits(n);
    assert TrimBy(s, true) == s;
    HexValueOfDigits(n);
  }
}
