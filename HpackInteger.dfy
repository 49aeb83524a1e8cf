/**
 * HPACK prefix integers (RFC 7541, section 5.1): an N-bit prefix in the first
 * octet, then base-128 continuation octets, least significant group first.
 * The source keeps values in a C# `int`, so decoding wraps modulo 2^32.
 */
module HpackInteger {
  import opened Common

  predicate ValidPrefix(n: int)
  {
    1 <= n <= 8
  }

  lemma {:induction false} Pow2Monotone(n: nat, m: nat)
    requires n <= m
    ensures Pow2(n) <= Pow2(m)
    decreases m
  {
    if n < m {
      Pow2Monotone(n, m - 1);
    }
  }

  lemma Pow2AtMost256(n: nat)
    requires n <= 8
    ensures Pow2(n) <= 256
  {
    Pow2Monotone(n, 8);
    assert Pow2(2) == 4 && Pow2(4) == 16 && Pow2(6) == 64 && Pow2(8) == 256;
  }

  /** `(1 << N) - 1`, the largest value the prefix can hold. */
  function MaxPrefix(n: int): (r: byte)
    requires ValidPrefix(n)
    ensures r >= 1 && r + 1 == Pow2(n)
  {
    Pow2AtMost256(n);
    Pow2(n) - 1
  }

  /**
   * The prefix value an octet carries: its low N bits, what masking with
   * 2^N - 1 keeps (see `PrefixLowBits`).
   */
  function Prefix(b: nat, n: int): nat
    requires ValidPrefix(n)
  {
    if n == 1 then b % 2
    else if n == 2 then b % 4
    else if n == 3 then b % 8
    else if n == 4 then b % 16
    else if n == 5 then b % 32
    else if n == 6 then b % 64
    else if n == 7 then b % 128
    else b % 256
  }

  lemma PrefixLowBits(b: nat, n: int)
    requires ValidPrefix(n)
    ensures Prefix(b, n) == LowBits(b, n)
  {
    LowBitsMod(b, n);
    Pow2Small();
    assert Pow2(3) == 8;
  }

  /** The continuation octets of v: base-128 groups, low group first. */
  function Continuation(v: nat): (r: Bytes)
    ensures |r| >= 1
    decreases v
  {
    if v < 128 then [v] else [v % 128 + 128] + Continuation(v / 128)
  }

  /**
   * The octets Encode produces for a valid prefix width. A value below
   * 2^N - 1 (negative ones included, whose low octet the cast keeps) fits in
   * the prefix; otherwise the prefix is saturated and the excess follows.
   */
  function EncodeOctets(value: int32, n: int, mask: byte): (r: Bytes)
    requires ValidPrefix(n)
    ensures |r| >= 1
  {
    if value < MaxPrefix(n) then [ByteOr(mask, value % 256)]
    else [ByteOr(mask, MaxPrefix(n))] + Continuation(value - MaxPrefix(n))
  }

  /** What `HpackInteger.Encode` returns or throws. */
  function EncodeSpec(value: int32, n: int32, mask: byte): (r: Result<Bytes>)
    ensures r.Err? <==> !ValidPrefix(n)
    ensures r.Err? ==> r.failure == ArgumentError
  {
    if !ValidPrefix(n) then Err(ArgumentError) else Ok(EncodeOctets(value, n, mask))
  }

  /**
   * The continuation octets from octet i on, read as one base-128 number
   * (low group first), and the index just past them: the first octet whose
   * 0x80 bit is clear ends the run.
   */
  function Groups(buf: Bytes, i: nat): (r: Result<(nat, nat)>)
    ensures r.Ok? ==> i < r.value.1 <= |buf|
    ensures r.Err? ==> r.failure == InvalidOperation
    decreases |buf| - i
  {
    if i >= |buf| then Err(InvalidOperation)
    else if buf[i] < 128 then Ok((buf[i], i + 1))
    else
      match Groups(buf, i + 1)
      case Err(e) => Err(e)
      case Ok((x, k)) => Ok((buf[i] - 128 + 128 * x, k))
  }

  /**
   * What `HpackInteger.Decode` returns or throws: the value and the octets
   * consumed. The prefix is the first octet masked with 2^N - 1.
   */
  function DecodeSpec(buf: Bytes, n: int32): (r: Result<(int32, nat)>)
    ensures r.Ok? ==> 1 <= r.value.1 <= |buf|
    ensures |buf| == 0 || !ValidPrefix(n) ==> r == Err(ArgumentError)
  {
    if |buf| == 0 || !ValidPrefix(n) then Err(ArgumentError)
    else
      var first: int32 := Prefix(buf[0], n);
      if first < MaxPrefix(n) then Ok((first, 1))
      else match Groups(buf, 1)
        case Ok((x, k)) => Ok((Wrap32(first + x), k))
        case Err(e) => Err(e)
  }

  // ---------------------------------------------------------------------
  // The imperative codec
  // ---------------------------------------------------------------------

  method Encode(value: int32, prefixBits: int32, prefixMask: byte) returns (r: Result<Bytes>)
    ensures r == EncodeSpec(value, prefixBits, prefixMask)
  {
    if prefixBits < 1 || prefixBits > 8 {
      return Err(ArgumentError);
    }
    var maxPrefixValue := MaxPrefix(prefixBits);
    var result: Bytes;
    if value < maxPrefixValue {
      result := [ByteOr(prefixMask, value % 256)];
    } else {
      result := [ByteOr(prefixMask, maxPrefixValue)];
      var v: nat := value - maxPrefixValue;
      while v >= 128
        invariant result + Continuation(v) == EncodeOctets(value, prefixBits, prefixMask)
        decreases v
      {
        assert Continuation(v) == [v % 128 + 128] + Continuation(v / 128);
        ConcatAssoc(result, [v % 128 + 128], Continuation(v / 128));
        result := result + [v % 128 + 128];
        v := v / 128;
      }
      assert Continuation(v) == [v];
      result := result + [v];
    }
    return Ok(result);
  }

  /** Multiplying congruent values by the same factor keeps them congruent modulo 2^32. */
  lemma CongruentMul(g: int, m: int, w: int)
    requires (w - m) % TWO32 == 0
    ensures (g * w - g * m) % TWO32 == 0
  {
    var k := (w - m) / TWO32;
    assert w - m == k * TWO32;
    assert g * w - g * m == (g * k) * TWO32;
    DivModUnique(g * w - g * m, TWO32, g * k, 0);
  }

  lemma CongruentSum(a: int, b: int, c: int)
    requires a % TWO32 == 0 && b % TWO32 == 0 && c % TWO32 == 0
    ensures (a + b + c) % TWO32 == 0
  {
    DivModUnique(a + b + c, TWO32, a / TWO32 + b / TWO32 + c / TWO32, 0);
  }

  /** Adding a wrapped group to the wrapped value tracks the unbounded sum, wrapped. */
  lemma WrapStep(value: int32, acc: int, group: nat, multiplier: int32, weight: int)
    requires value == Wrap32(acc) && multiplier == Wrap32(weight)
    ensures Wrap32(value + Wrap32(group * multiplier)) == Wrap32(acc + group * weight)
  {
    CongruentMul(group, multiplier, weight);
    var x := value + Wrap32(group * multiplier);
    var y := acc + group * weight;
    CongruentSum(acc - value, group * weight - group * multiplier, group * multiplier - Wrap32(group * multiplier));
    assert y - x == (acc - value) + (group * weight - group * multiplier) + (group * multiplier - Wrap32(group * multiplier));
    Wrap32Congruent(y, x);
  }

  /** The wrapped multiplier tracks the unbounded weight, wrapped. */
  lemma WrapScale(multiplier: int32, weight: int)
    requires multiplier == Wrap32(weight)
    ensures Wrap32(multiplier * 128) == Wrap32(weight * 128)
  {
    CongruentMul(128, multiplier, weight);
    Wrap32Congruent(weight * 128, multiplier * 128);
  }

  /** A run of continuation octets worth x, added at the given weight to what was read before it. */
  ghost function Resume(g: Result<(nat, nat)>, acc: int, weight: int): Result<(int, nat)>
  {
    match g
    case Err(e) => Err(e)
    case Ok((x, k)) => Ok((acc + x * weight, k))
  }

  /** Reading one more octet moves its group from the run into the accumulated value. */
  lemma ResumeStep(buf: Bytes, i: nat, acc: int, weight: int)
    requires i < |buf|
    ensures buf[i] >= 128 ==>
      Resume(Groups(buf, i), acc, weight) == Resume(Groups(buf, i + 1), acc + (buf[i] % 128) * weight, weight * 128)
    ensures buf[i] < 128 ==> Groups(buf, i).Ok? && Groups(buf, i).value == (buf[i] % 128, i + 1)
  {
    if buf[i] >= 128 && Groups(buf, i + 1).Ok? {
      var x := Groups(buf, i + 1).value.0;
      assert buf[i] % 128 == buf[i] - 128;
      assert (buf[i] - 128 + 128 * x) * weight == (buf[i] - 128) * weight + x * (weight * 128);
    }
  }

  /** Masking the first octet with 2^N - 1 keeps its prefix. */
  lemma PrefixOfMask(b: byte, n: int)
    requires ValidPrefix(n)
    ensures And(b, MaxPrefix(n)) == Prefix(b, n)
  {
    AndLowBits(b, n);
    PrefixLowBits(b, n);
  }

  /** A saturated prefix followed by a terminated run decodes to their wrapped sum. */
  lemma DecodeFinish(buf: Bytes, n: int32, first: int, a: int, k: nat)
    requires 0 < |buf| && ValidPrefix(n) && first == Prefix(buf[0], n) >= MaxPrefix(n)
    requires Resume(Groups(buf, 1), first, 1) == Ok((a, k))
    ensures DecodeSpec(buf, n) == Ok((Wrap32(a), k))
  {
  }

  /** A saturated prefix whose run is not terminated is an error. */
  lemma DecodeRunsOut(buf: Bytes, n: int32, first: int, acc: int, weight: int)
    requires 0 < |buf| && ValidPrefix(n) && first == Prefix(buf[0], n) >= MaxPrefix(n)
    requires Resume(Groups(buf, |buf|), acc, weight) == Resume(Groups(buf, 1), first, 1)
    ensures DecodeSpec(buf, n) == Err(InvalidOperation)
  {
  }

  /** One pass of Decode's loop keeps the wrapped and the unbounded accumulations in step. */
  lemma DecodeStep(buf: Bytes, i: nat, first: int, value: int32, multiplier: int32, acc: int, weight: int,
                   group: nat)
    requires 1 <= i < |buf| && group == buf[i] % 128
    requires value == Wrap32(acc) && multiplier == Wrap32(weight)
    requires Resume(Groups(buf, i), acc, weight) == Resume(Groups(buf, 1), first, 1)
    ensures Wrap32(value + Wrap32(group * multiplier)) == Wrap32(acc + group * weight)
    ensures Wrap32(multiplier * 128) == Wrap32(weight * 128)
    ensures buf[i] >= 128 ==>
      Resume(Groups(buf, i + 1), acc + group * weight, weight * 128) == Resume(Groups(buf, 1), first, 1)
    ensures buf[i] < 128 ==> Resume(Groups(buf, 1), first, 1) == Ok((acc + group * weight, i + 1))
  {
    ResumeStep(buf, i, acc, weight);
    WrapStep(value, acc, group, multiplier, weight);
    WrapScale(multiplier, weight);
  }

  method Decode(buffer: Bytes, prefixBits: int32) returns (r: Result<(int32, nat)>)
    ensures r == DecodeSpec(buffer, prefixBits)
  {
    if |buffer| == 0 {
      return Err(ArgumentError);
    }
    if prefixBits < 1 || prefixBits > 8 {
      return Err(ArgumentError);
    }
    var maxPrefixValue := MaxPrefix(prefixBits);
    AndBound(buffer[0], maxPrefixValue);
    PrefixOfMask(buffer[0], prefixBits);
    var value: int32 := And(buffer[0], maxPrefixValue);
    var bytesConsumed: nat := 1;
    if value < maxPrefixValue {
      DecodeShort(buffer, prefixBits, value);
      return Ok((value, bytesConsumed));
    }
    var multiplier: int32 := 1;
    ghost var first: int := value;
    ghost var acc: int := value;
    ghost var weight: int := 1;
    Wrap32Id(value);
    Wrap32Id(1);
    while bytesConsumed < |buffer|
      invariant 1 <= bytesConsumed <= |buffer|
      invariant value == Wrap32(acc) && multiplier == Wrap32(weight)
      invariant Resume(Groups(buffer, bytesConsumed), acc, weight) == Resume(Groups(buffer, 1), first, 1)
      decreases |buffer| - bytesConsumed
    {
      var b := buffer[bytesConsumed];
      var group := And(b, 0x7F);
      AndLow7(b);
      AndHigh(b);
      DecodeStep(buffer, bytesConsumed, first, value, multiplier, acc, weight, group);
      bytesConsumed := bytesConsumed + 1;
      value := Wrap32(value + Wrap32(group * multiplier));
      multiplier := Wrap32(multiplier * 128);
      acc := acc + group * weight;
      weight := weight * 128;
      if And(b, 0x80) == 0 {
        DecodeFinish(buffer, prefixBits, first, acc, bytesConsumed);
        return Ok((value, bytesConsumed));
      }
    }
    DecodeRunsOut(buffer, prefixBits, first, acc, weight);
    return Err(InvalidOperation);
  }

  // ---------------------------------------------------------------------
  // Properties
  // ---------------------------------------------------------------------

  /** Where the first continuation octet of v sits, and what follows it. */
  lemma ContinuationLayout(v: nat, pre: Bytes, rest: Bytes)
    requires v >= 128
    ensures var s := pre + Continuation(v) + rest;
      s == (pre + [v % 128 + 128]) + Continuation(v / 128) + rest && s[|pre|] == v % 128 + 128 &&
      |Continuation(v)| == 1 + |Continuation(v / 128)|
  {
    assert Continuation(v) == [v % 128 + 128] + Continuation(v / 128);
  }

  /** The continuation octets of v read back as v, wherever they sit and whatever follows them. */
  lemma {:induction false} GroupsOfContinuation(v: nat, pre: Bytes, rest: Bytes)
    ensures Groups(pre + Continuation(v) + rest, |pre|) == Ok((v, |pre| + |Continuation(v)|))
    decreases v
  {
    var s := pre + Continuation(v) + rest;
    if v < 128 {
      assert s[|pre|] == v;
    } else {
      ContinuationLayout(v, pre, rest);
      GroupsOfContinuation(v / 128, pre + [v % 128 + 128], rest);
    }
  }

  lemma OrUnderMask(mask: byte, x: nat, n: int)
    requires ValidPrefix(n) && Prefix(mask, n) == 0 && x <= MaxPrefix(n)
    ensures ByteOr(mask, x) == mask + x
  {
    PrefixLowBits(mask, n);
    OrDisjoint(mask, x, n);
  }

  lemma ModUnderMask(mask: byte, x: nat, n: int)
    requires ValidPrefix(n) && Prefix(mask, n) == 0 && x <= MaxPrefix(n)
    ensures LowBits(mask + x, n) == x
  {
    PrefixLowBits(mask, n);
    LowBitsOfSum(mask, x, n);
  }

  /** A prefix value or-ed under a mask that leaves the low N bits clear is read back by the prefix mask. */
  lemma FirstOctet(mask: byte, x: nat, n: int)
    requires ValidPrefix(n) && Prefix(mask, n) == 0 && x <= MaxPrefix(n)
    ensures Prefix(ByteOr(mask, x), n) == x
  {
    OrUnderMask(mask, x, n);
    ModUnderMask(mask, x, n);
    PrefixLowBits(mask + x, n);
  }

  /** The first octet is the mask or-ed with the value, or with 2^N - 1 once the value does not fit. */
  lemma FirstOctetIs(v: int32, n: int, mask: byte)
    requires v >= 0 && ValidPrefix(n)
    ensures EncodeOctets(v, n, mask)[0] == ByteOr(mask, if v < MaxPrefix(n) then v else MaxPrefix(n))
  {
    if v < MaxPrefix(n) {
      assert v % 256 == v;
    }
  }

  /** The first octet carries the mask and a prefix value of at most 2^N - 1. */
  lemma FirstOctetRange(v: int32, n: int, mask: byte)
    requires v >= 0 && ValidPrefix(n) && Prefix(mask, n) == 0
    ensures mask <= EncodeOctets(v, n, mask)[0] <= mask + MaxPrefix(n)
  {
    FirstOctetIs(v, n, mask);
    OrUnderMask(mask, if v < MaxPrefix(n) then v else MaxPrefix(n), n);
  }

  /**
   * Round trip (RFC 7541, section 5.1): a non-negative value encoded with a
   * mask that leaves the low N bits clear decodes to itself, consuming exactly
   * the encoded octets whatever follows them.
   */
  lemma DecodeEncode(v: int32, n: int32, mask: byte, rest: Bytes)
    requires v >= 0 && ValidPrefix(n) && Prefix(mask, n) == 0
    ensures EncodeSpec(v, n, mask).Ok?
    ensures var e := EncodeSpec(v, n, mask).value;
      DecodeSpec(e + rest, n) == Ok((v, |e|))
  {
    DecodeEncodeOctets(v, n, mask, rest);
  }

  /** The same round trip, stated on the octets themselves. */
  lemma DecodeEncodeOctets(v: int32, n: int32, mask: byte, rest: Bytes)
    requires v >= 0 && ValidPrefix(n) && Prefix(mask, n) == 0
    ensures var e := EncodeOctets(v, n, mask);
      DecodeSpec(e + rest, n) == Ok((v, |e|))
  {
    if v < MaxPrefix(n) {
      DecodeEncodeShort(v, n, mask, rest);
    } else {
      DecodeEncodeLong(v, n, mask, rest);
    }
  }

  lemma DecodeEncodeShort(v: int32, n: int32, mask: byte, rest: Bytes)
    requires ValidPrefix(n) && 0 <= v < MaxPrefix(n) && Prefix(mask, n) == 0
    ensures DecodeSpec(EncodeOctets(v, n, mask) + rest, n) == Ok((v, 1))
  {
    FirstOctetIs(v, n, mask);
    FirstOctet(mask, v, n);
    DecodeShort(EncodeOctets(v, n, mask) + rest, n, v);
  }

  /** A prefix below 2^N - 1 is the whole value. */
  lemma DecodeShort(buf: Bytes, n: int32, v: int32)
    requires 0 < |buf| && ValidPrefix(n) && 0 <= v < MaxPrefix(n) && Prefix(buf[0], n) == v
    ensures DecodeSpec(buf, n) == Ok((v, 1))
  {
  }

  lemma DecodeEncodeLong(v: int32, n: int32, mask: byte, rest: Bytes)
    requires ValidPrefix(n) && v >= MaxPrefix(n) && Prefix(mask, n) == 0
    ensures DecodeSpec(EncodeOctets(v, n, mask) + rest, n) == Ok((v, |EncodeOctets(v, n, mask)|))
  {
    LongPrefix(v, n, mask, rest);
    LongGroups(v, n, mask, rest);
    DecodeLong(EncodeOctets(v, n, mask) + rest, n, v - MaxPrefix(n), |EncodeOctets(v, n, mask)|);
  }

  /** A saturated encoding starts with the mask over 2^N - 1. */
  lemma LongPrefix(v: int32, n: int32, mask: byte, rest: Bytes)
    requires ValidPrefix(n) && v >= MaxPrefix(n) && Prefix(mask, n) == 0
    ensures Prefix((EncodeOctets(v, n, mask) + rest)[0], n) == MaxPrefix(n)
  {
    assert (EncodeOctets(v, n, mask) + rest)[0] == ByteOr(mask, MaxPrefix(n));
    FirstOctet(mask, MaxPrefix(n), n);
  }

  /** After a saturated prefix come the continuation octets of the excess. */
  lemma LongGroups(v: int32, n: int32, mask: byte, rest: Bytes)
    requires ValidPrefix(n) && v >= MaxPrefix(n)
    ensures Groups(EncodeOctets(v, n, mask) + rest, 1) == Ok((v - MaxPrefix(n), |EncodeOctets(v, n, mask)|))
  {
    var pre := [ByteOr(mask, MaxPrefix(n))];
    var c := Continuation(v - MaxPrefix(n));
    assert EncodeOctets(v, n, mask) + rest == pre + c + rest;
    GroupsOfContinuation(v - MaxPrefix(n), pre, rest);
  }

  /** A saturated prefix followed by continuation octets worth x decodes to 2^N - 1 + x. */
  lemma DecodeLong(buf: Bytes, n: int32, x: nat, k: nat)
    requires 0 < |buf| && ValidPrefix(n) && Prefix(buf[0], n) == MaxPrefix(n)
    requires Groups(buf, 1) == Ok((x, k)) && MaxPrefix(n) + x < TWO31
    ensures DecodeSpec(buf, n) == Ok((MaxPrefix(n) + x, k))
  {
    Wrap32Id(MaxPrefix(n) + x);
  }

  /** Decode reads no octet past the ones it reports as consumed. */
  lemma {:induction false} GroupsIgnoreTrailing(buf: Bytes, i: nat, rest: Bytes)
    requires Groups(buf, i).Ok?
    ensures var k := Groups(buf, i).value.1;
      Groups(buf[..k] + rest, i) == Groups(buf, i)
    decreases |buf| - i
  {
    var k := Groups(buf, i).value.1;
    var s := buf[..k] + rest;
    assert s[i] == buf[i];
    if buf[i] >= 128 {
      GroupsIgnoreTrailing(buf, i + 1, rest);
    }
  }

  lemma DecodeIgnoresTrailing(buf: Bytes, n: int32, rest: Bytes)
    requires DecodeSpec(buf, n).Ok?
    ensures var k := DecodeSpec(buf, n).value.1;
      DecodeSpec(buf[..k] + rest, n) == DecodeSpec(buf, n)
  {
    var k := DecodeSpec(buf, n).value.1;
    var s := buf[..k] + rest;
    assert s[0] == buf[0];
    if Prefix(buf[0], n) >= MaxPrefix(n) {
      GroupsIgnoreTrailing(buf, 1, rest);
    }
  }

  /**
   * The octets consumed after the prefix are exactly those up to and
   * including the first one whose 0x80 bit is clear.
   */
  lemma {:induction false} GroupsStopAtFirstClear(buf: Bytes, i: nat)
    requires Groups(buf, i).Ok?
    ensures var k := Groups(buf, i).value.1;
      buf[k - 1] < 128 && forall j :: i <= j < k - 1 ==> buf[j] >= 128
    decreases |buf| - i
  {
    if buf[i] >= 128 {
      GroupsStopAtFirstClear(buf, i + 1);
    }
  }

  /** With a saturated prefix and every later octet flagged, Decode fails as incomplete. */
  lemma {:induction false} GroupsIncomplete(buf: Bytes, i: nat)
    requires forall j :: i <= j < |buf| ==> buf[j] >= 128
    ensures Groups(buf, i) == Err(InvalidOperation)
    decreases |buf| - i
  {
    if i < |buf| {
      GroupsIncomplete(buf, i + 1);
    }
  }

  lemma DecodeIncomplete(buf: Bytes, n: int32)
    requires |buf| >= 1 && ValidPrefix(n)
    requires Prefix(buf[0], n) == MaxPrefix(n)
    requires forall j :: 1 <= j < |buf| ==> buf[j] >= 128
    ensures DecodeSpec(buf, n) == Err(InvalidOperation)
  {
    GroupsIncomplete(buf, 1);
  }
}
