/**
 * Little-endian fixed-point numbers as the client's number serializer reads
 * them: a format "u2.01" is an unsigned integer of 2 bytes scaled by 10^-2,
 * "s2.1" a two's-complement integer of 2 bytes scaled by 10^-1, and so on.
 */
module FixedPoint {

  type byte = x: int | 0 <= x < 256
  type Bytes = seq<byte>

  /** Signedness, width in bytes and decimal exponent (value = raw * 10^-exponent). */
  datatype Format = Format(signed: bool, width: nat, exponent: nat) {
    predicate Valid() { width == 1 || width == 2 || width == 4 }
  }

  /** "u4": the plain 32-bit unsigned word of the flag fields. */
  const U4: Format := Format(false, 4, 0)

  function Pow256(n: nat): (p: nat)
    ensures p >= 1
    ensures n > 0 ==> p % 256 == 0
  {
    if n == 0 then 1 else 256 * Pow256(n - 1)
  }

  /** The range of a u4 word. */
  lemma Pow256Of4()
    ensures Pow256(4) == 0x1_0000_0000
  {
    assert Pow256(2) == 0x1_0000;
  }

  function Pow10(n: nat): (p: nat)
    ensures p >= 1
  {
    if n == 0 then 1 else 10 * Pow10(n - 1)
  }

  /** The unsigned value of bs, least significant byte first. */
  function LeUnsigned(bs: Bytes): (v: nat)
    ensures v < Pow256(|bs|)
  {
    if bs == [] then 0 else bs[0] + 256 * LeUnsigned(bs[1..])
  }

  /** The n little-endian bytes of v: the inverse of LeUnsigned. */
  function LeBytes(v: nat, n: nat): (bs: Bytes)
    requires v < Pow256(n)
    ensures |bs| == n && LeUnsigned(bs) == v
  {
    if n == 0 then [] else [v % 256] + LeBytes(v / 256, n - 1)
  }

  /** LeBytes undoes LeUnsigned: an n-byte buffer is determined by its value. */
  lemma {:induction false} LeBytesOfUnsigned(bs: Bytes)
    ensures LeBytes(LeUnsigned(bs), |bs|) == bs
  {
    if bs != [] {
      var v := LeUnsigned(bs);
      assert v % 256 == bs[0] && v / 256 == LeUnsigned(bs[1..]);
      LeBytesOfUnsigned(bs[1..]);
    }
  }

  /** The integers a format can carry: [0, 256^w) unsigned, [-256^w/2, 256^w/2) signed. */
  predicate InRange(fmt: Format, v: int) {
    if fmt.signed then -(Pow256(fmt.width) / 2) <= v < Pow256(fmt.width) / 2
    else 0 <= v < Pow256(fmt.width)
  }

  /** The raw integer held by exactly fmt.width bytes, two's complement when signed. */
  function DecodeInt(fmt: Format, bs: Bytes): (v: int)
    requires fmt.Valid() && |bs| == fmt.width
    ensures InRange(fmt, v)
    ensures v >= 0 <==> !fmt.signed || LeUnsigned(bs) < Pow256(fmt.width) / 2
  {
    var u := LeUnsigned(bs);
    if fmt.signed && u >= Pow256(fmt.width) / 2 then u - Pow256(fmt.width) else u
  }

  /** The fmt.width bytes that carry v; DecodeInt reads v back. */
  function EncodeInt(fmt: Format, v: int): (bs: Bytes)
    requires fmt.Valid() && InRange(fmt, v)
    ensures |bs| == fmt.width && DecodeInt(fmt, bs) == v
  {
    LeBytes(if v < 0 then v + Pow256(fmt.width) else v, fmt.width)
  }

  /** EncodeInt undoes DecodeInt: decoding loses no information. */
  lemma EncodeDecodeInt(fmt: Format, bs: Bytes)
    requires fmt.Valid() && |bs| == fmt.width
    ensures EncodeInt(fmt, DecodeInt(fmt, bs)) == bs
  {
    LeBytesOfUnsigned(bs);
  }

  /** The exact value a raw integer stands for: raw * 10^-exponent. */
  function Scaled(fmt: Format, raw: int): real {
    raw as real / Pow10(fmt.exponent) as real
  }

  /** Different raw integers stand for different values. */
  lemma ScaledInjective(fmt: Format, a: int, b: int)
    requires Scaled(fmt, a) == Scaled(fmt, b)
    ensures a == b
  {
    var p := Pow10(fmt.exponent) as real;
    assert a as real == Scaled(fmt, a) * p;
    assert b as real == Scaled(fmt, b) * p;
  }
}
