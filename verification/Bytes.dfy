/** Bytes, fixed-width unsigned integers and network byte order.
    Source: common/common_utils.cpp (`pack_uint16` and its relatives). */
module Bytes {
  type byte = x: int | 0 <= x < 0x100
  type uint16 = x: int | 0 <= x < 0x1_0000
  type uint32 = x: int | 0 <= x < 0x1_0000_0000

  /** The 16-bit word with the given high and low bytes. */
  function Word(high: byte, low: byte): uint16 {
    0x100 * (high as int) + low as int
  }

  function Pack16(v: uint16): (b: seq<byte>)
    ensures |b| == 2
  {
    [v / 0x100, v % 0x100]
  }

  function Unpack16(b: seq<byte>): uint16
    requires |b| >= 2
  {
    Word(b[0], b[1])
  }

  function Pack32(v: uint32): (b: seq<byte>)
    ensures |b| == 4
  {
    Pack16(v / 0x1_0000) + Pack16(v % 0x1_0000)
  }

  function Unpack32(b: seq<byte>): uint32
    requires |b| >= 4
  {
    0x1_0000 * (Unpack16(b) as int) + Unpack16(b[2..]) as int
  }

  /** Network byte order: the most significant byte comes first. */
  lemma BigEndian16(v: uint16, b: seq<byte>)
    ensures Pack16(v) == [v / 0x100, v % 0x100]
    ensures |b| >= 2 ==> Unpack16(b) as int == 0x100 * (b[0] as int) + b[1] as int
  {
  }

  lemma HighHalf(v: uint32)
    ensures v / 0x1_0000 / 0x100 == v / 0x100_0000
  {
    var a, b, c := v / 0x1_0000 / 0x100, v / 0x1_0000 % 0x100, v % 0x1_0000;
    assert v == 0x100_0000 * a + (0x1_0000 * b + c);
  }

  lemma LowHalf(v: uint32)
    ensures v % 0x1_0000 / 0x100 == v / 0x100 % 0x100 && v % 0x1_0000 % 0x100 == v % 0x100
  {
    var a, b, c := v / 0x1_0000, v % 0x1_0000 / 0x100, v % 0x1_0000 % 0x100;
    assert v == 0x100 * (0x100 * a + b) + c;
    assert v / 0x100 == 0x100 * a + b;
  }

  lemma BigEndian32(v: uint32, b: seq<byte>)
    ensures Pack32(v) == [v / 0x100_0000, v / 0x1_0000 % 0x100, v / 0x100 % 0x100, v % 0x100]
    ensures |b| >= 4 ==> Unpack32(b) as int
                         == 0x100_0000 * (b[0] as int) + 0x1_0000 * (b[1] as int) + 0x100 * (b[2] as int) + b[3] as int
  {
    HighHalf(v);
    LowHalf(v);
    if |b| >= 4 {
      assert b[2..][0] == b[2] && b[2..][1] == b[3];
    }
  }

  lemma Unpack16OfPack16(v: uint16, rest: seq<byte>)
    ensures Unpack16(Pack16(v) + rest) == v
  {
  }

  lemma Unpack32OfPack32(v: uint32, rest: seq<byte>)
    ensures Unpack32(Pack32(v) + rest) == v
  {
    var high, low := Pack16(v / 0x1_0000), Pack16(v % 0x1_0000);
    assert Pack32(v) + rest == high + (low + rest);
    assert (high + (low + rest))[2..] == low + rest;
    Unpack16OfPack16(v / 0x1_0000, low + rest);
    Unpack16OfPack16(v % 0x1_0000, rest);
  }
}
