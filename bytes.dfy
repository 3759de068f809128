/**
 * Little-endian integer fields over byte buffers.
 *
 * The C++ side reads them with memcpy from an unchecked buffer
 * (DataHolder/DataOwner::read_u16 and read_u32); the converter writes them with
 * struct.pack("<H") and struct.pack("<I").  Buffers are sequences of bytes and
 * every read states the bounds it needs, because the source checks none.
 */
module Bytes {

  type byte = x: int | 0 <= x < 0x100
  type u16 = x: int | 0 <= x < 0x1_0000
  type u32 = x: int | 0 <= x < 0x1_0000_0000

  /** read_u16(off): the two bytes at `off`, least significant first. */
  function ReadU16(data: seq<byte>, off: nat): u16
    requires off + 2 <= |data|
  {
    data[off] as int + 0x100 * data[off + 1] as int
  }

  /** read_u32(off): the four bytes at `off`, least significant first. */
  function ReadU32(data: seq<byte>, off: nat): u32
    requires off + 4 <= |data|
  {
    data[off] as int + 0x100 * data[off + 1] as int + 0x1_0000 * data[off + 2] as int
      + 0x100_0000 * data[off + 3] as int
  }

  /** struct.pack("<H", v) */
  function LE16(v: u16): (r: seq<byte>)
    ensures |r| == 2
  {
    [v % 0x100, v / 0x100]
  }

  /** struct.pack("<I", v) */
  function LE32(v: u32): (r: seq<byte>)
    ensures |r| == 4
  {
    [v % 0x100, (v / 0x100) % 0x100, (v / 0x1_0000) % 0x100, v / 0x100_0000]
  }

  /** Reading back a packed 16-bit field, wherever it sits in a buffer, gives the value. */
  lemma ReadLE16(pre: seq<byte>, v: u16, post: seq<byte>)
    ensures ReadU16(pre + LE16(v) + post, |pre|) == v
  {
    var s := pre + LE16(v) + post;
    assert s[|pre|] == v % 0x100 && s[|pre| + 1] == v / 0x100;
  }

  /** Reading back a packed 32-bit field, wherever it sits in a buffer, gives the value. */
  lemma ReadLE32(pre: seq<byte>, v: u32, post: seq<byte>)
    ensures ReadU32(pre + LE32(v) + post, |pre|) == v
  {
    var s := pre + LE32(v) + post;
    var k := |pre|;
    assert s[k] == v % 0x100 && s[k + 1] == (v / 0x100) % 0x100;
    assert s[k + 2] == (v / 0x1_0000) % 0x100 && s[k + 3] == v / 0x100_0000;
    var q1 := v / 0x100;
    var q2 := q1 / 0x100;
    assert v / 0x1_0000 == q2;
    assert v / 0x100_0000 == q2 / 0x100;
    assert v == v % 0x100 + 0x100 * (q1 % 0x100 + 0x100 * (q2 % 0x100 + 0x100 * (q2 / 0x100)));
  }

  /** Packing the 16-bit field read from a buffer reproduces the two bytes read. */
  lemma LE16OfRead(data: seq<byte>, off: nat)
    requires off + 2 <= |data|
    ensures LE16(ReadU16(data, off)) == data[off..off + 2]
  {
  }

  /** A 16-bit field whose two bytes are LE16(v) reads as v. */
  lemma ReadU16At(data: seq<byte>, off: nat, v: u16)
    requires off + 2 <= |data| && data[off..off + 2] == LE16(v)
    ensures ReadU16(data, off) == v
  {
    assert data[off] == data[off..off + 2][0] && data[off + 1] == data[off..off + 2][1];
  }

  /** A 32-bit field whose four bytes are LE32(v) reads as v. */
  lemma ReadU32At(data: seq<byte>, off: nat, v: u32)
    requires off + 4 <= |data| && data[off..off + 4] == LE32(v)
    ensures ReadU32(data, off) == v
  {
    assert data == data[..off] + LE32(v) + data[off + 4..];
    ReadLE32(data[..off], v, data[off + 4..]);
  }
}
