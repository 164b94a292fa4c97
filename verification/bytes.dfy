/** Fixed-width unsigned integers and their little-endian byte encoding.

    Rust's `u8`, `u16` and `u32` are modelled as subset types of `int`.  The
    header structs of the chip layer are cast to bytes with `bytemuck`, which
    reinterprets memory in host byte order.  This model assumes a
    little-endian host, so every multi-byte field is encoded little-endian;
    big-endian hosts are not modelled. */
module Bytes {

  type u8 = x: int | 0 <= x < 0x100
  type u16 = x: int | 0 <= x < 0x1_0000
  type u32 = x: int | 0 <= x < 0x1_0000_0000

  /** 256^n: the number of values that fit in n bytes. */
  function Pow256(n: nat): (r: nat)
    ensures r >= 1
  {
    if n == 0 then 1 else 256 * Pow256(n - 1)
  }

  /** Encodes `x` into exactly `n` bytes, least significant byte first. */
  function LeEncode(x: nat, n: nat): (bs: seq<u8>)
    requires x < Pow256(n)
    ensures |bs| == n
  {
    if n == 0 then [] else [x % 256] + LeEncode(x / 256, n - 1)
  }

  /** Reads a little-endian unsigned integer from `bs`. */
  function LeDecode(bs: seq<u8>): (x: nat)
    ensures x < Pow256(|bs|)
  {
    if |bs| == 0 then 0 else bs[0] + 256 * LeDecode(bs[1..])
  }

  /** Decoding an encoding gives back the integer. */
  lemma {:induction false} LeDecodeEncode(x: nat, n: nat)
    requires x < Pow256(n)
    ensures LeDecode(LeEncode(x, n)) == x
  {
    if n > 0 {
      var bs := LeEncode(x, n);
      assert bs[1..] == LeEncode(x / 256, n - 1);
      LeDecodeEncode(x / 256, n - 1);
    }
  }

  /** Encoding a decoded byte string gives back the bytes. */
  lemma {:induction false} LeEncodeDecode(bs: seq<u8>)
    ensures LeEncode(LeDecode(bs), |bs|) == bs
  {
    if |bs| > 0 {
      var x := LeDecode(bs);
      assert x % 256 == bs[0] && x / 256 == LeDecode(bs[1..]);
      LeEncodeDecode(bs[1..]);
    }
  }

  /** Equal encodings mean equal integers. */
  lemma LeEncodeInjective(x: nat, y: nat, n: nat)
    requires x < Pow256(n) && y < Pow256(n)
    requires LeEncode(x, n) == LeEncode(y, n)
    ensures x == y
  {
    LeDecodeEncode(x, n);
    LeDecodeEncode(y, n);
  }

  /** A `u16` as its two little-endian bytes. */
  function Le16(x: u16): (bs: seq<u8>)
    ensures |bs| == 2 && bs[0] == x % 0x100 && bs[1] == x / 0x100
  {
    assert Pow256(2) == 0x1_0000;
    assert LeEncode(x, 2) == [x % 0x100] + LeEncode(x / 0x100, 1);
    assert LeEncode(x / 0x100, 1) == [x / 0x100];
    LeEncode(x, 2)
  }

  /** A `u32` as its four little-endian bytes. */
  function Le32(x: u32): (bs: seq<u8>)
    ensures |bs| == 4
    ensures bs[0] == x % 0x100 && bs[1] == (x / 0x100) % 0x100
    ensures bs[2] == (x / 0x1_0000) % 0x100 && bs[3] == x / 0x100_0000
  {
    assert Pow256(4) == 0x1_0000_0000;
    var x1, x2, x3 := x / 0x100, x / 0x1_0000, x / 0x100_0000;
    assert x1 / 0x100 == x2 && x2 / 0x100 == x3;
    assert LeEncode(x, 4) == [x % 0x100] + LeEncode(x1, 3);
    assert LeEncode(x1, 3) == [x1 % 0x100] + LeEncode(x2, 2);
    assert LeEncode(x2, 2) == [x2 % 0x100] + LeEncode(x3, 1);
    assert LeEncode(x3, 1) == [x3];
    LeEncode(x, 4)
  }

  /** Two little-endian bytes read back as a `u16`. */
  function ReadLe16(bs: seq<u8>): (x: u16)
    requires |bs| == 2
    ensures Le16(x) == bs
  {
    assert Pow256(2) == 0x1_0000;
    LeEncodeDecode(bs);
    LeDecode(bs)
  }

  /** Four little-endian bytes read back as a `u32`. */
  function ReadLe32(bs: seq<u8>): (x: u32)
    requires |bs| == 4
    ensures Le32(x) == bs
  {
    assert Pow256(4) == 0x1_0000_0000;
    LeEncodeDecode(bs);
    LeDecode(bs)
  }

  lemma Le16RoundTrip(x: u16)
    ensures ReadLe16(Le16(x)) == x
  {
  }

  lemma Le32RoundTrip(x: u32)
    ensures ReadLe32(Le32(x)) == x
  {
    assert Pow256(4) == 0x1_0000_0000;
    LeDecodeEncode(x, 4);
  }
}
