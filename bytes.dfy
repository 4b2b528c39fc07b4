/**
 * Byte strings and fixed-width unsigned integers, with the big-endian
 * ("network order") conversions between them.  The host-order calls of
 * <endian.h> (htobe64, htobe16, be64toh, be16toh) and the raw pointer casts
 * in networkinstruction.cpp become explicit byte-by-byte composition here, so the
 * model does not depend on the host's byte order.
 */
module Bytes {

  type byte = x: int | 0 <= x < 0x100
  type uint16 = x: int | 0 <= x < 0x1_0000
  type uint64 = x: int | 0 <= x < 0x1_0000_0000_0000_0000

  /** 256 to the power n: the number of values an n-byte field can hold. */
  function Pow256(n: nat): (p: nat)
    ensures p >= 1
  {
    if n == 0 then 1 else 256 * Pow256(n - 1)
  }

  lemma Pow256Widths()
    ensures Pow256(2) == 0x1_0000
    ensures Pow256(8) == 0x1_0000_0000_0000_0000
  {
    assert Pow256(1) == 0x100;
    assert Pow256(2) == 0x1_0000;
    assert Pow256(3) == 0x100_0000;
    assert Pow256(4) == 0x1_0000_0000;
    assert Pow256(5) == 0x100_0000_0000;
    assert Pow256(6) == 0x1_0000_0000_0000;
    assert Pow256(7) == 0x100_0000_0000_0000;
  }

  /** The value denoted by a big-endian byte string (most significant byte first). */
  function FromBigEndian(b: seq<byte>): (r: nat)
    ensures r < Pow256(|b|)
  {
    if b == [] then 0 else FromBigEndian(b[..|b| - 1]) * 256 + b[|b| - 1]
  }

  /**
   * The low `width` bytes of x, most significant first.  For an x that fits
   * in `width` bytes, reading them back in big-endian order gives x.
   */
  function BigEndian(x: nat, width: nat): (r: seq<byte>)
    ensures |r| == width
    ensures x < Pow256(width) ==> FromBigEndian(r) == x
  {
    if width == 0 then []
    else
      var r := BigEndian(x / 256, width - 1) + [x % 256];
      assert r[..|r| - 1] == BigEndian(x / 256, width - 1);
      r
  }

  /** Every byte string is the big-endian encoding of the value it denotes. */
  lemma {:induction false} BigEndianOfValue(b: seq<byte>)
    ensures BigEndian(FromBigEndian(b), |b|) == b
  {
    if b != [] {
      var front, last := b[..|b| - 1], b[|b| - 1];
      var v := FromBigEndian(front) * 256 + last;
      assert v / 256 == FromBigEndian(front) && v % 256 == last;
      BigEndianOfValue(front);
      assert b == front + [last];
    }
  }

  /** Two byte strings of one width denoting the same value are equal. */
  lemma BigEndianInjective(a: seq<byte>, b: seq<byte>)
    requires |a| == |b| && FromBigEndian(a) == FromBigEndian(b)
    ensures a == b
  {
    BigEndianOfValue(a);
    BigEndianOfValue(b);
  }
}
