/**
  Fixed-width integers, their little-endian byte images (as read by .NET's
  BinaryReader and written by BinaryWriter) and the decimal formatting used for
  label numbers.  All values are unbounded integers restricted by subset types.
 */
module Bytes {

  type byte = x: int | 0 <= x < 0x100
  type uint32 = x: int | 0 <= x < 0x1_0000_0000
  type int32 = x: int | -0x8000_0000 <= x < 0x8000_0000
  type uint64 = x: int | 0 <= x < 0x1_0000_0000_0000_0000

  const TwoTo32: int := 0x1_0000_0000

  /** Adding to a value reduced to 32 bits gives the reduction of the sum. */
  lemma {:induction false} ModAddLeft(a: nat, b: nat)
    ensures (a % TwoTo32 + b) % TwoTo32 == (a + b) % TwoTo32
  {
    var q := a / TwoTo32;
    assert a == q * TwoTo32 + a % TwoTo32;
    assert (a + b) == q * TwoTo32 + (a % TwoTo32 + b);
  }

  /** True when `b` contains no zero byte. */
  predicate NoZero(b: seq<byte>)
  {
    forall i :: 0 <= i < |b| ==> b[i] != 0
  }

  // ---------------------------------------------------------------------
  // Little-endian integers
  // ---------------------------------------------------------------------

  /** The value of four little-endian bytes (BinaryReader.ReadUInt32). */
  function LE32(b: seq<byte>): uint32
    requires |b| == 4
  {
    var b0: int, b1: int, b2: int, b3: int := b[0], b[1], b[2], b[3];
    b0 + 0x100 * b1 + 0x1_0000 * b2 + 0x100_0000 * b3
  }

  /** The four little-endian bytes of a 32-bit value (BinaryWriter.Write(uint)). */
  function U32Bytes(n: uint32): (b: seq<byte>)
    ensures |b| == 4
    ensures LE32(b) == n
  {
    var q1 := n / 0x100;
    var q2 := q1 / 0x100;
    var q3 := q2 / 0x100;
    assert n == 0x100 * q1 + n % 0x100;
    assert q1 == 0x100 * q2 + q1 % 0x100;
    assert q2 == 0x100 * q3 + q2 % 0x100;
    [n % 0x100, q1 % 0x100, q2 % 0x100, q3]
  }

  /** Reading four bytes and writing the value back reproduces the bytes. */
  lemma {:induction false} U32BytesOfLE32(b: seq<byte>)
    requires |b| == 4
    ensures U32Bytes(LE32(b)) == b
  {
    var n := LE32(b);
    var b0: int, b1: int, b2: int, b3: int := b[0], b[1], b[2], b[3];
    var q2 := b2 + 0x100 * b3;
    var q1 := b1 + 0x100 * q2;
    assert n == b0 + 0x100 * q1;
    assert n / 0x100 == q1 && n % 0x100 == b0;
    assert q1 / 0x100 == q2 && q1 % 0x100 == b1;
    assert q2 / 0x100 == b3 && q2 % 0x100 == b2;
  }

  /** The value of eight little-endian bytes (BinaryReader.ReadUInt64). */
  function LE64(b: seq<byte>): uint64
    requires |b| == 8
  {
    LE32(b[..4]) + TwoTo32 * LE32(b[4..])
  }

  /** The eight little-endian bytes of a 64-bit value (BinaryWriter.Write(ulong)). */
  function U64Bytes(n: uint64): (b: seq<byte>)
    ensures |b| == 8
    ensures LE64(b) == n
  {
    var b := U32Bytes(n % TwoTo32) + U32Bytes(n / TwoTo32);
    assert b[..4] == U32Bytes(n % TwoTo32) && b[4..] == U32Bytes(n / TwoTo32);
    b
  }

  /** The signed reading of a 32-bit pattern (BinaryReader.ReadInt32, or an unchecked cast to int). */
  function Int32Of(u: uint32): (i: int32)
    ensures i == u || i == u - TwoTo32
  {
    if u < 0x8000_0000 then u else u - TwoTo32
  }

  /** The bit pattern of a signed 32-bit value (BinaryWriter.Write(int)). */
  function UInt32Of(i: int32): (u: uint32)
    ensures Int32Of(u) == i
  {
    if i < 0 then i + TwoTo32 else i
  }

  /** Writing a signed value reads back the same bit pattern. */
  lemma {:induction false} UInt32OfInt32Of(u: uint32)
    ensures UInt32Of(Int32Of(u)) == u
  {
  }

  // ---------------------------------------------------------------------
  // Decimal text (int.ToString() and int.ToString("00000"))
  // ---------------------------------------------------------------------

  const Zero: byte := 0x30
  const Minus: byte := 0x2D

  predicate IsDigit(c: byte)
  {
    Zero <= c <= Zero + 9
  }

  predicate AllDigits(s: seq<byte>)
  {
    forall i :: 0 <= i < |s| ==> IsDigit(s[i])
  }

  /** The number that a string of decimal digits denotes. */
  function DecimalValue(s: seq<byte>): nat
    requires AllDigits(s)
  {
    if s == [] then 0 else 10 * DecimalValue(s[..|s| - 1]) + (s[|s| - 1] - Zero)
  }

  /** The shortest decimal digits of `n`. */
  function Digits(n: nat): (s: seq<byte>)
    ensures 1 <= |s| && AllDigits(s)
    ensures DecimalValue(s) == n
    decreases n
  {
    if n < 10 then [Zero + n] else
      var s := Digits(n / 10) + [Zero + n % 10];
      assert s[..|s| - 1] == Digits(n / 10);
      s
  }

  /** int.ToString(): an optional minus sign followed by the digits. */
  function IntToString(n: int): (s: seq<byte>)
    ensures |s| >= 1
    ensures n >= 0 ==> AllDigits(s) && DecimalValue(s) == n
    ensures n < 0 ==> s[0] == Minus && AllDigits(s[1..]) && DecimalValue(s[1..]) == -n
  {
    if n < 0 then [Minus] + Digits(-n) else Digits(n)
  }

  /** Leading zeros do not change the value of a digit string. */
  lemma {:induction false} LeadingZeros(k: nat, s: seq<byte>)
    requires AllDigits(s)
    ensures AllDigits(seq(k, _ => Zero) + s)
    ensures DecimalValue(seq(k, _ => Zero) + s) == DecimalValue(s)
    decreases |s|
  {
    var z := seq(k, _ => Zero);
    if s == [] {
      assert z + s == z;
      ZerosValue(k);
    } else {
      var init := s[..|s| - 1];
      LeadingZeros(k, init);
      assert (z + s)[..|z + s| - 1] == z + init;
    }
  }

  lemma {:induction false} ZerosValue(k: nat)
    ensures AllDigits(seq(k, _ => Zero))
    ensures DecimalValue(seq(k, _ => Zero)) == 0
  {
    if k > 0 {
      ZerosValue(k - 1);
      assert seq(k, _ => Zero)[..k - 1] == seq(k - 1, _ => Zero);
    }
  }

  /** Digits padded on the left with '0' to at least five characters. */
  function Pad5(d: seq<byte>): (s: seq<byte>)
  {
    if |d| < 5 then seq(5 - |d|, _ => Zero) + d else d
  }

  /**
    int.ToString("00000"): at least five digits, zero-padded on the left,
    after a minus sign for negative values.
   */
  function ZeroPadded5(n: int): (s: seq<byte>)
    ensures |s| >= 5
    ensures n >= 0 ==> AllDigits(s) && DecimalValue(s) == n
    ensures 0 <= n < 100000 ==> |s| == 5
    ensures n >= 100000 ==> |s| > 5
    ensures n < 0 ==> s[0] == Minus && AllDigits(s[1..]) && DecimalValue(s[1..]) == -n
  {
    var m := if n < 0 then -n else n;
    PaddedDigits(m);
    if n < 0 then [Minus] + Pad5(Digits(m)) else Pad5(Digits(m))
  }

  lemma {:induction false} PaddedDigits(m: nat)
    ensures AllDigits(Pad5(Digits(m))) && DecimalValue(Pad5(Digits(m))) == m
    ensures m < 100000 ==> |Pad5(Digits(m))| == 5
    ensures m >= 100000 ==> |Pad5(Digits(m))| > 5
  {
    var d := Digits(m);
    if |d| < 5 {
      LeadingZeros(5 - |d|, d);
    }
    DigitsLength(m, 5);
    assert Pow10(5) == 100000;
  }

  /** `n` has at most `k` digits exactly when it is below 10^k. */
  lemma {:induction false} DigitsLength(n: nat, k: nat)
    requires k >= 1
    ensures |Digits(n)| <= k <==> n < Pow10(k)
    decreases n
  {
    if n >= 10 {
      assert |Digits(n)| == |Digits(n / 10)| + 1;
      if k > 1 {
        DigitsLength(n / 10, k - 1);
      }
    }
  }

  function Pow10(k: nat): (p: nat)
    ensures p >= 1
    ensures k >= 1 ==> p >= 10
  {
    if k == 0 then 1 else 10 * Pow10(k - 1)
  }
}
