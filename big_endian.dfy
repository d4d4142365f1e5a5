/**
 * Unsigned big-endian numbers (most significant byte first), as `java.nio.ByteBuffer`
 * writes them by default and as VSAM compares keys, and the two's-complement
 * encoding of a Java `int` in four such bytes.
 */
module BigEndian {

  type byte = b: int | 0 <= b < 256

  /** 256 to the power n: one more than the largest value n bytes hold. */
  function Pow256(n: nat): (p: nat)
    ensures p > 0
  {
    if n == 0 then 1 else 256 * Pow256(n - 1)
  }

  /** The last byte of a non-empty byte string. */
  function Last(bs: seq<byte>): (b: nat)
    requires bs != []
    ensures b < 256
  {
    bs[|bs| - 1]
  }

  /** The unsigned value of a big-endian byte string. */
  function FromBytes(bs: seq<byte>): (n: nat)
    ensures n < Pow256(|bs|)
    decreases |bs|
  {
    if bs == [] then 0 else FromBytes(bs[..|bs| - 1]) * 256 + Last(bs)
  }

  /** The `width`-byte big-endian representation of n. */
  function ToBytes(n: nat, width: nat): (bs: seq<byte>)
    requires n < Pow256(width)
    ensures |bs| == width
  {
    if width == 0 then [] else ToBytes(n / 256, width - 1) + [n % 256]
  }

  lemma {:induction false} FromToBytes(n: nat, width: nat)
    requires n < Pow256(width)
    ensures FromBytes(ToBytes(n, width)) == n
  {
    if width > 0 {
      var bs := ToBytes(n, width);
      assert bs[..width - 1] == ToBytes(n / 256, width - 1);
      FromToBytes(n / 256, width - 1);
    }
  }

  lemma {:induction false} ToFromBytes(bs: seq<byte>)
    ensures ToBytes(FromBytes(bs), |bs|) == bs
  {
    if bs != [] {
      var init := bs[..|bs| - 1];
      ToFromBytes(init);
      assert bs == init + [bs[|bs| - 1]];
    }
  }

  /** Equal-length byte strings with equal values are equal. */
  lemma FromBytesInjective(a: seq<byte>, b: seq<byte>)
    requires |a| == |b| && FromBytes(a) == FromBytes(b)
    ensures a == b
  {
    ToFromBytes(a);
    ToFromBytes(b);
  }

  const TWO_TO_THE_31: int := 0x8000_0000
  const TWO_TO_THE_32: int := 0x1_0000_0000

  /** A Java `int`. */
  type int32 = x: int | -TWO_TO_THE_31 <= x < TWO_TO_THE_31

  /** `ByteBuffer.allocate(4).putInt(v)`: two's complement, most significant byte first. */
  function IntToBytes(v: int32): (bs: seq<byte>)
    ensures |bs| == 4
  {
    ToBytes(if v < 0 then v + TWO_TO_THE_32 else v, 4)
  }

  /** `ByteBuffer.wrap(bs).getInt()` on exactly four bytes. */
  function BytesToInt(bs: seq<byte>): (v: int32)
    requires |bs| == 4
  {
    var u := FromBytes(bs);
    if u >= TWO_TO_THE_31 then u - TWO_TO_THE_32 else u
  }

  lemma IntRoundTrip(v: int32)
    ensures BytesToInt(IntToBytes(v)) == v
  {
    FromToBytes(if v < 0 then v + TWO_TO_THE_32 else v, 4);
  }

  lemma BytesRoundTrip(bs: seq<byte>)
    requires |bs| == 4
    ensures IntToBytes(BytesToInt(bs)) == bs
  {
    ToFromBytes(bs);
  }
}
