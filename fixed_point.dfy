/** The fixed-point byte codec of decimal regions, at the integer layer.

    A decimal slot holds 9 bytes: byte 0 is a sign flag, bytes 1..8 the
    big-endian magnitude of the value scaled by 10^4.  Here the scaled value is
    the already-truncated `i64`; multiplying by 10^4 before encoding and
    dividing by 10^4 after decoding are floating-point steps that are not
    part of this model. */
module FixedPoint {

  const I64_MIN: int := -0x8000_0000_0000_0000
  const I64_MAX: int := 0x7FFF_FFFF_FFFF_FFFF

  /** A signed 64-bit integer. */
  type Int64 = x: int | I64_MIN <= x <= I64_MAX

  /** Length of one encoding: a sign byte and an 8-byte magnitude. */
  const ENCODING_BYTES: nat := 9

  /** An unsigned 8-bit value (`u8`). */
  type Byte = x: int | 0 <= x < 256

  /** 9 bytes: [sign, magnitude big-endian]. */
  type Encoding = s: seq<Byte> | |s| == ENCODING_BYTES witness [0, 0, 0, 0, 0, 0, 0, 0, 0]

  /** The all-zero encoding of a freshly allocated decimal slot. */
  const ZERO_ENCODING: Encoding := [0, 0, 0, 0, 0, 0, 0, 0, 0]

  function Pow256(k: nat): (p: nat)
    ensures p > 0
  {
    if k == 0 then 1 else 256 * Pow256(k - 1)
  }

  function Abs(x: int): nat {
    if x < 0 then -x else x
  }

  /** `n >> (8 * k)` on a non-negative value: k successive byte shifts. */
  function ShiftRightBytes(n: nat, k: nat): nat {
    if k == 0 then n else ShiftRightBytes(n / 256, k - 1)
  }

  /** `(n >> (8 * k)) as u8`: byte k of n, counting from the least significant. */
  function ByteOf(n: nat, k: nat): Byte {
    (ShiftRightBytes(n, k) % 256)
  }

  /** The value of a big-endian byte string, accumulated the way the
      decoder's loop does it: shift left by a byte, add the next byte. */
  function BigEndian(bs: seq<Byte>): nat {
    if |bs| == 0 then 0 else BigEndian(bs[..|bs| - 1]) * 256 + bs[|bs| - 1]
  }

  /** The m low-order bytes of n, most significant first. */
  function Digits(n: nat, m: nat): (ds: seq<Byte>)
    ensures |ds| == m
  {
    seq(m, j requires 0 <= j < m => ByteOf(n, m - 1 - j))
  }

  /** Spec of the encoder: sign byte 1 for a negative value, 0 otherwise,
      then the absolute value as 8 big-endian bytes.  For `i64::MIN` the
      source's `abs()` wraps, and the bytes its arithmetic shifts extract are
      those of 2^63, so this formula covers that input too. */
  function EncodeFixedPoint(scaled: Int64): (e: Encoding)
    ensures e[0] == (if scaled < 0 then 1 else 0)
    ensures BigEndian(e[1..]) == Abs(scaled)
  {
    BigEndianOfDigits(Abs(scaled), 8);
    assert Pow256(8) == 0x1_0000_0000_0000_0000;
    var e := [if scaled < 0 then 1 else 0] + Digits(Abs(scaled), 8);
    assert e[1..] == Digits(Abs(scaled), 8);
    e
  }

  /** Spec of the decoder, with the magnitude read as an unsigned 64-bit
      value: any non-zero sign byte means negative. */
  function DecodeFixedPoint(e: Encoding): (scaled: int)
    ensures Abs(scaled) == BigEndian(e[1..])
    ensures e[0] == 0 ==> scaled >= 0
    ensures e[0] != 0 ==> scaled <= 0
  {
    var magnitude: int := BigEndian(e[1..]);
    if e[0] == 0 then magnitude else -magnitude
  }

  lemma {:induction false} DigitsStep(n: nat, m: nat)
    ensures Digits(n, m + 1) == Digits(n / 256, m) + [ByteOf(n, 0)]
  {
    var lhs, rhs := Digits(n, m + 1), Digits(n / 256, m) + [ByteOf(n, 0)];
    forall j | 0 <= j < m + 1
      ensures lhs[j] == rhs[j]
    {
      if j < m {
        assert ShiftRightBytes(n, m - j) == ShiftRightBytes(n / 256, m - 1 - j);
      }
    }
  }

  /** Writing the m low bytes of n big-endian and reading them back gives n,
      whenever n fits in m bytes. */
  lemma {:induction false} BigEndianOfDigits(n: nat, m: nat)
    requires n < Pow256(m)
    ensures BigEndian(Digits(n, m)) == n
  {
    if m == 0 {
      assert n == 0;
    } else {
      var p := Pow256(m - 1);
      assert n < 256 * p;
      assert n / 256 < p;
      DigitsStep(n, m - 1);
      var ds := Digits(n, m);
      assert ds[..m - 1] == Digits(n / 256, m - 1);
      assert ds[m - 1] == n % 256;
      BigEndianOfDigits(n / 256, m - 1);
      calc {
        BigEndian(ds);
        BigEndian(ds[..m - 1]) * 256 + ds[m - 1];
        (n / 256) * 256 + n % 256;
        n;
      }
    }
  }

  /** Round trip of the codec's integer layer: every scaled `i64` comes back. */
  lemma RoundTrip(scaled: Int64)
    ensures DecodeFixedPoint(EncodeFixedPoint(scaled)) == scaled
  {
  }

  /** The encoder, with the loop of the source: byte 0 gets the sign, then
      byte 8 - i gets byte i of the absolute value for i in 0..8. */
  method ConvertToFixedPoint(scaled: Int64) returns (e: Encoding)
    ensures e == EncodeFixedPoint(scaled)
  {
    var result := new Byte[ENCODING_BYTES](_ => 0);
    result[0] := if scaled < 0 then 1 else 0;
    var absValue := Abs(scaled);
    for i := 0 to 8
      invariant result[0] == (if scaled < 0 then 1 else 0)
      invariant forall k :: 0 <= k < i ==> result[8 - k] == ByteOf(absValue, k)
    {
      result[8 - i] := (ShiftRightBytes(absValue, i) % 256);
    }
    e := result[..];
    assert e == [if scaled < 0 then 1 else 0] + Digits(absValue, 8);
  }

  /** The decoder's loop: the magnitude is built by shifting in bytes 1..8
      one at a time, then the sign is applied.  The accumulator is unsigned
      (the corrected decoder); the source's `i64` accumulator is modelled by
      `DecodeFixedPointAsWritten` and differs from it on magnitudes of 2^63
      and above. */
  method ConvertFromFixedPoint(e: Encoding) returns (scaled: int)
    ensures scaled == DecodeFixedPoint(e)
  {
    var value: nat := 0;
    for i := 1 to 9
      invariant value == BigEndian(e[1..i])
    {
      assert e[1..i + 1][..i - 1] == e[1..i];
      value := value * 256 + e[i];
    }
    assert e[1..9] == e[1..];
    scaled := if e[0] == 0 then value else -(value as int);
  }

  // The source accumulates the magnitude in a signed `i64`.  A magnitude of
  // 2^63 or more then reads as negative, and applying the sign byte flips it.

  /** `x as i64` for a value below 2^64: two's-complement reinterpretation. */
  function ToInt64(x: nat): (r: Int64)
    requires x < 0x1_0000_0000_0000_0000
    ensures r % 0x1_0000_0000_0000_0000 == x
  {
    if x <= I64_MAX then x else x - 0x1_0000_0000_0000_0000
  }

  /** Decoding as written: the magnitude read into an `i64`, then multiplied by
      the sign (as a float in the source, exactly representable here). */
  function DecodeFixedPointAsWritten(e: Encoding): (scaled: int)
    ensures BigEndian(e[1..]) <= I64_MAX ==> scaled == DecodeFixedPoint(e)
  {
    BigEndianBound(e[1..]);
    assert Pow256(8) == 0x1_0000_0000_0000_0000;
    var value: int := ToInt64(BigEndian(e[1..]));
    if e[0] == 0 then value else -value
  }

  lemma {:induction false} BigEndianBound(bs: seq<Byte>)
    ensures BigEndian(bs) < Pow256(|bs|)
  {
    if |bs| > 0 {
      BigEndianBound(bs[..|bs| - 1]);
    }
    assert |bs| == 8 ==> Pow256(|bs|) == 0x1_0000_0000_0000_0000;
  }

  /** The encoding of `i64::MIN` (which the source's saturating float cast
      produces for every value at or below -2^63 / 10^4) decodes, as written,
      to +2^63: the sign is lost. */
  lemma AsWrittenMinimumLosesSign()
    ensures DecodeFixedPointAsWritten(EncodeFixedPoint(I64_MIN)) == 0x8000_0000_0000_0000
    ensures DecodeFixedPoint(EncodeFixedPoint(I64_MIN)) == I64_MIN
  {
  }

  /** Everywhere else the decoder as written agrees with the corrected one. */
  lemma AsWrittenAgreesAboveMinimum(scaled: Int64)
    requires scaled != I64_MIN
    ensures DecodeFixedPointAsWritten(EncodeFixedPoint(scaled)) == scaled
  {
  }
}
