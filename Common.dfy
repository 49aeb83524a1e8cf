/**
 * Shared vocabulary of the model: octets, the failures the C# code throws,
 * bitwise operations on small naturals, big-endian words, 32-bit wrap-around
 * and ASCII case folding.
 */
module Common {

  type byte = x: int | 0 <= x < 256
  type Bytes = seq<byte>

  const TWO31: int := 0x8000_0000
  const TWO32: int := 0x1_0000_0000

  type uint16 = x: int | 0 <= x < 0x1_0000
  type uint32 = x: int | 0 <= x < 0x1_0000_0000
  type int32 = x: int | -0x8000_0000 <= x < 0x8000_0000

  lemma ConcatAssoc<T>(a: seq<T>, b: seq<T>, c: seq<T>)
    ensures (a + b) + c == a + (b + c)
  {
  }

  lemma MiddleSlice<T>(x: seq<T>, m: seq<T>, z: seq<T>)
    ensures (x + m + z)[|x|..|x| + |m|] == m
  {
  }

  lemma DropDrop<T>(s: seq<T>, i: nat, j: nat)
    requires i + j <= |s|
    ensures s[i..][j..] == s[i + j..]
  {
  }

  datatype Option<T> = None | Some(value: T)

  /** A header: its name and its value. */
  type Header = (string, string)

  /** The exception classes the source throws, by kind. */
  datatype Failure =
    | ArgumentError        // ArgumentException
    | ArgumentOutOfRange   // ArgumentOutOfRangeException
    | ArgumentNull         // ArgumentNullException
    | InvalidOperation     // InvalidOperationException
    | IOError              // IOException
    | InvalidData          // InvalidDataException
    | NotSupported         // NotSupportedException
    | ObjectDisposed       // ObjectDisposedException
    | IndexOutOfRange      // IndexOutOfRangeException
    | OperationCanceled    // OperationCanceledException

  datatype Result<T> = Ok(value: T) | Err(failure: Failure)

  // ---------------------------------------------------------------------
  // Powers of two and bitwise operations on naturals
  // ---------------------------------------------------------------------

  function Pow2(n: nat): (r: nat)
    ensures r >= 1
  {
    if n == 0 then 1 else 2 * Pow2(n - 1)
  }

  /** Bitwise or, defined bit by bit from the least significant end. */
  function Or(a: nat, b: nat): nat
  {
    if a == 0 then b
    else if b == 0 then a
    else 2 * Or(a / 2, b / 2) + (if a % 2 == 1 || b % 2 == 1 then 1 else 0)
  }

  /** Bitwise and, defined bit by bit from the least significant end. */
  function And(a: nat, b: nat): nat
  {
    if a == 0 || b == 0 then 0
    else 2 * And(a / 2, b / 2) + (if a % 2 == 1 && b % 2 == 1 then 1 else 0)
  }

  lemma {:induction false} OrBound(a: nat, b: nat, n: nat)
    requires a < Pow2(n) && b < Pow2(n)
    ensures Or(a, b) < Pow2(n)
    decreases n
  {
    if a != 0 && b != 0 {
      OrBound(a / 2, b / 2, n - 1);
    }
  }

  lemma {:induction false} AndBound(a: nat, b: nat)
    ensures And(a, b) <= a && And(a, b) <= b
    decreases a
  {
    if a != 0 && b != 0 {
      AndBound(a / 2, b / 2);
    }
  }

  function ByteOr(a: byte, b: byte): (r: byte)
    ensures r >= a && r >= b
  {
    OrBound(a, b, 8);
    OrAtLeast(a, b);
    Or(a, b)
  }

  function ByteAnd(a: byte, b: byte): (r: byte)
    ensures r <= a && r <= b
  {
    AndBound(a, b);
    And(a, b)
  }

  lemma {:induction false} OrAtLeast(a: nat, b: nat)
    ensures Or(a, b) >= a && Or(a, b) >= b
    decreases a
  {
    if a != 0 && b != 0 {
      OrAtLeast(a / 2, b / 2);
    }
  }

  /** Masking with 2^n - 1 keeps the low n bits. */
  lemma {:induction false} AndLowMask(a: nat, n: nat)
    ensures And(a, Pow2(n) - 1) == a % Pow2(n)
    decreases n
  {
    if n == 0 || a == 0 {
    } else {
      AndLowMask(a / 2, n - 1);
      assert (Pow2(n) - 1) / 2 == Pow2(n - 1) - 1;
      assert (Pow2(n) - 1) % 2 == 1;
      DivModPow2(a, n);
    }
  }

  /** a % 2^n is the last bit plus twice the next n-1 bits. */
  lemma DivModPow2(a: nat, n: nat)
    requires n >= 1
    ensures a % Pow2(n) == 2 * ((a / 2) % Pow2(n - 1)) + a % 2
  {
    var p := Pow2(n - 1);
    var q := (a / 2) / p;
    var r := (a / 2) % p;
    assert a / 2 == q * p + r;
    assert a == q * Pow2(n) + (2 * r + a % 2);
    assert 0 <= 2 * r + a % 2 < Pow2(n);
    DivModUnique(a, Pow2(n), q, 2 * r + a % 2);
  }

  lemma MulAtLeast(d: int, m: int)
    requires d >= 1 && m > 0
    ensures d * m >= m
  {
    assert (d - 1) * m >= 0;
  }

  /** Quotient and remainder are unique. */
  lemma DivModUnique(a: int, m: int, q: int, r: int)
    requires m > 0 && 0 <= r < m && a == q * m + r
    ensures a % m == r && a / m == q
  {
    var q0 := a / m;
    var r0 := a % m;
    assert (q0 - q) * m == r - r0;
    if q0 > q {
      MulAtLeast(q0 - q, m);
    } else if q0 < q {
      MulAtLeast(q - q0, m);
    }
  }

  /** The low n bits of a: what masking with 2^n - 1 keeps. */
  function LowBits(a: nat, n: nat): (r: nat)
    ensures r < Pow2(n) && r <= a
  {
    if n == 0 then 0 else a % 2 + 2 * LowBits(a / 2, n - 1)
  }

  /** Masking with 2^n - 1 keeps exactly the low n bits. */
  lemma {:induction false} AndLowBits(a: nat, n: nat)
    ensures And(a, Pow2(n) - 1) == LowBits(a, n)
    decreases n
  {
    if n == 0 || a == 0 {
      if n != 0 {
        LowBitsZero(n);
      }
    } else {
      AndLowBits(a / 2, n - 1);
      assert (Pow2(n) - 1) / 2 == Pow2(n - 1) - 1;
      assert (Pow2(n) - 1) % 2 == 1;
    }
  }

  lemma {:induction false} LowBitsZero(n: nat)
    ensures LowBits(0, n) == 0
    decreases n
  {
    if n != 0 {
      LowBitsZero(n - 1);
    }
  }

  /** The low n bits are the residue modulo 2^n. */
  lemma {:induction false} LowBitsMod(a: nat, n: nat)
    ensures LowBits(a, n) == a % Pow2(n)
    decreases n
  {
    if n != 0 {
      LowBitsMod(a / 2, n - 1);
      DivModPow2(a, n);
    }
  }

  /** 2^m has no bit set below bit m. */
  lemma {:induction false} LowBitsPow2(m: nat, n: nat)
    requires n <= m
    ensures LowBits(Pow2(m), n) == 0
    decreases n
  {
    if n != 0 {
      assert Pow2(m) % 2 == 0 && Pow2(m) / 2 == Pow2(m - 1);
      LowBitsPow2(m - 1, n - 1);
    }
  }

  /** A value whose low n bits are clear plus a value below 2^n has that value as its low bits. */
  lemma {:induction false} LowBitsOfSum(a: nat, b: nat, n: nat)
    requires LowBits(a, n) == 0 && b < Pow2(n)
    ensures LowBits(a + b, n) == b
    decreases n
  {
    if n != 0 {
      assert a % 2 == 0 && LowBits(a / 2, n - 1) == 0;
      assert (a + b) % 2 == b % 2 && (a + b) / 2 == a / 2 + b / 2;
      LowBitsOfSum(a / 2, b / 2, n - 1);
    }
  }

  /** Or of a value whose low n bits are clear with a value below 2^n is their sum. */
  lemma {:induction false} OrDisjoint(a: nat, b: nat, n: nat)
    requires LowBits(a, n) == 0 && b < Pow2(n)
    ensures Or(a, b) == a + b
    decreases n
  {
    if a == 0 || b == 0 {
    } else {
      assert n >= 1;
      assert a % 2 == 0 && LowBits(a / 2, n - 1) == 0;
      OrDisjoint(a / 2, b / 2, n - 1);
    }
  }

  /** Below 2^(k+1), bit k is set exactly when the value reaches 2^k. */
  lemma {:induction false} AndTopBit(b: nat, k: nat)
    requires b < Pow2(k + 1)
    ensures (And(b, Pow2(k)) != 0) == (b >= Pow2(k))
    decreases k
  {
    if k == 0 {
      assert b == 0 || b == 1;
    } else if b != 0 {
      assert Pow2(k) % 2 == 0 && Pow2(k) / 2 == Pow2(k - 1);
      AndTopBit(b / 2, k - 1);
    }
  }

  lemma Pow2Small()
    ensures Pow2(4) == 16 && Pow2(5) == 32 && Pow2(6) == 64 && Pow2(7) == 128 && Pow2(8) == 256
  {
    assert Pow2(2) == 4;
  }

  /** `b & 0x7F` keeps the low seven bits. */
  lemma AndLow7(b: nat)
    ensures And(b, 0x7F) == b % 128
  {
    Pow2Small();
    AndLowMask(b, 7);
  }

  /** `b & 0x80` of an octet is non-zero exactly when the octet is at least 128. */
  lemma AndHigh(b: byte)
    ensures (And(b, 0x80) != 0) == (b >= 128)
  {
    Pow2Small();
    AndTopBit(b, 7);
  }

  /** The representation bits HPACK tests after the higher ones were found clear. */
  lemma AndBelow(b: byte, bit: nat)
    requires bit == 0x40 || bit == 0x20 || bit == 0x10
    requires b < 2 * bit
    ensures (And(b, bit) != 0) == (b >= bit)
  {
    Pow2Small();
    if bit == 0x40 {
      AndTopBit(b, 6);
    } else if bit == 0x20 {
      AndTopBit(b, 5);
    } else {
      AndTopBit(b, 4);
    }
  }

  // ---------------------------------------------------------------------
  // Big-endian words and 32-bit two's complement
  // ---------------------------------------------------------------------

  function BE16(s: Bytes, i: nat): (r: nat)
    requires i + 2 <= |s|
    ensures r < 0x1_0000
  {
    (s[i] as int) * 0x100 + s[i + 1] as int
  }

  function BE24(s: Bytes, i: nat): (r: nat)
    requires i + 3 <= |s|
    ensures r < 0x100_0000
  {
    (s[i] as int) * 0x1_0000 + (s[i + 1] as int) * 0x100 + s[i + 2] as int
  }

  function BE32(s: Bytes, i: nat): (r: uint32)
    requires i + 4 <= |s|
  {
    (s[i] as int) * 0x100_0000 + (s[i + 1] as int) * 0x1_0000 + (s[i + 2] as int) * 0x100 + s[i + 3] as int
  }

  function ToBE16(v: nat): (r: Bytes)
    requires v < 0x1_0000
    ensures |r| == 2 && BE16(r, 0) == v
  {
    [v / 0x100, v % 0x100]
  }

  function ToBE24(v: nat): (r: Bytes)
    requires v < 0x100_0000
    ensures |r| == 3 && BE24(r, 0) == v
  {
    var a := v / 0x100;
    [a / 0x100, a % 0x100, v % 0x100]
  }

  function ToBE32(v: uint32): (r: Bytes)
    ensures |r| == 4 && BE32(r, 0) == v
  {
    var a := v / 0x100;
    var b := a / 0x100;
    [b / 0x100, b % 0x100, a % 0x100, v % 0x100]
  }

  /** Reading a big-endian word back from any position of a sequence. */
  lemma BE16At(a: Bytes, v: nat, b: Bytes)
    requires v < 0x1_0000
    ensures BE16(a + ToBE16(v) + b, |a|) == v
  {
    var s := a + ToBE16(v) + b;
    assert s[|a|..|a| + 2] == ToBE16(v);
  }

  lemma BE24At(a: Bytes, v: nat, b: Bytes)
    requires v < 0x100_0000
    ensures BE24(a + ToBE24(v) + b, |a|) == v
  {
    var s := a + ToBE24(v) + b;
    assert s[|a|..|a| + 3] == ToBE24(v);
  }

  lemma BE32At(a: Bytes, v: uint32, b: Bytes)
    ensures BE32(a + ToBE32(v) + b, |a|) == v
  {
    var s := a + ToBE32(v) + b;
    assert s[|a|..|a| + 4] == ToBE32(v);
  }

  /** The bytes of a big-endian word are determined by the word. */
  lemma ToBE32Of(s: Bytes, i: nat)
    requires i + 4 <= |s|
    ensures ToBE32(BE32(s, i)) == s[i..i + 4]
  {
    var v := BE32(s, i);
    var a: int := (s[i] as int) * 0x1_0000 + (s[i + 1] as int) * 0x100 + s[i + 2] as int;
    var b: int := (s[i] as int) * 0x100 + s[i + 1] as int;
    DivModUnique(v, 0x100, a, s[i + 3]);
    DivModUnique(a, 0x100, b, s[i + 2]);
    DivModUnique(b, 0x100, s[i], s[i + 1]);
    assert ToBE32(v) == [s[i], s[i + 1], s[i + 2], s[i + 3]];
  }

  /** Reinterpret a 32-bit pattern as a signed C# int (unchecked cast). */
  function Wrap32(x: int): (r: int32)
    ensures (x - r) % TWO32 == 0
  {
    ((x + TWO31) % TWO32) - TWO31
  }

  lemma Wrap32Id(x: int)
    requires -TWO31 <= x < TWO31
    ensures Wrap32(x) == x
  {
  }

  /** Two values congruent modulo 2^32 wrap to the same int. */
  lemma Wrap32Congruent(x: int, y: int)
    requires (x - y) % TWO32 == 0
    ensures Wrap32(x) == Wrap32(y)
  {
    var k := (x - y) / TWO32;
    assert x == y + k * TWO32;
    var q := (y + TWO31) / TWO32;
    var r := (y + TWO31) % TWO32;
    assert x + TWO31 == (q + k) * TWO32 + r;
    DivModUnique(x + TWO31, TWO32, q + k, r);
  }

  /** The low 31 bits of a 32-bit word: `& 0x7FFFFFFF`. */
  function Low31(v: int): (r: nat)
    ensures r < TWO31
  {
    v % TWO31
  }

  lemma Low31Id(v: int)
    requires 0 <= v < TWO31
    ensures Low31(v) == v
  {
  }

  /** A freshly allocated byte array of length n: all zeros. */
  function Zeros(n: nat): (r: Bytes)
    ensures |r| == n && forall i :: 0 <= i < n ==> r[i] == 0
  {
    seq(n, _ => 0)
  }

  // ---------------------------------------------------------------------
  // ASCII literals and case folding
  // ---------------------------------------------------------------------

  /** The octets of a literal written in ASCII. */
  function Octets(s: string): (r: Bytes)
    ensures |r| == |s|
  {
    seq(|s|, i requires 0 <= i < |s| => (s[i] as int) % 256)
  }

  /** Octets read back as text, one character per octet. */
  function Text(b: Bytes): (r: string)
    ensures |r| == |b| && Octets(r) == b
  {
    seq(|b|, i requires 0 <= i < |b| => b[i] as char)
  }

  /** `Encoding.ASCII.GetString`: one character per octet, '?' for an octet above 0x7F. */
  function AsciiText(b: Bytes): (r: string)
    ensures |r| == |b|
  {
    seq(|b|, i requires 0 <= i < |b| => if b[i] < 128 then b[i] as char else '?')
  }

  function LowerByte(b: byte): byte
  {
    if 65 <= b <= 90 then b + 32 else b
  }

  function LowerBytes(s: Bytes): (r: Bytes)
    ensures |r| == |s|
  {
    seq(|s|, i requires 0 <= i < |s| => LowerByte(s[i]))
  }

  /** Ordinal comparison ignoring ASCII case, over octets. */
  predicate BytesEqualIgnoreCase(a: Bytes, b: Bytes)
  {
    LowerBytes(a) == LowerBytes(b)
  }

  function LowerChar(c: char): char
  {
    if 'A' <= c <= 'Z' then (c as int + 32) as char else c
  }

  function Lower(s: string): (r: string)
    ensures |r| == |s|
  {
    seq(|s|, i requires 0 <= i < |s| => LowerChar(s[i]))
  }

  /** Ordinal comparison ignoring ASCII case, over text. */
  predicate EqualsIgnoreCase(a: string, b: string)
  {
    Lower(a) == Lower(b)
  }

  predicate StartsWith(s: string, prefix: string)
  {
    |prefix| <= |s| && s[..|prefix|] == prefix
  }

  predicate StartsWithIgnoreCase(s: string, prefix: string)
  {
    |prefix| <= |s| && EqualsIgnoreCase(s[..|prefix|], prefix)
  }

  lemma EqualsIgnoreCaseSameLength(a: string, b: string)
    requires EqualsIgnoreCase(a, b)
    ensures |a| == |b|
  {
    assert |Lower(a)| == |Lower(b)|;
  }

  lemma BytesEqualIgnoreCaseSameLength(a: Bytes, b: Bytes)
    requires BytesEqualIgnoreCase(a, b)
    ensures |a| == |b|
  {
    assert |LowerBytes(a)| == |LowerBytes(b)|;
  }
}
