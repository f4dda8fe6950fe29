/**
 * Fixed-width integers and the big-endian byte layouts shared by both protocols:
 * `jk_get_16bit`/`jk_get_32bit` read big-endian values out of the battery payload,
 * and every adapter getter writes its value big-endian (`v >> 8`, then `(uint8_t)v`).
 */
module Bytes {

  type uint8 = x: int | 0 <= x < 0x100
  /** One octet on either serial bus. */
  type byte = uint8
  type uint16 = x: int | 0 <= x < 0x1_0000
  type uint32 = x: int | 0 <= x < 0x1_0000_0000

  /** The low 16 bits of x, as a C assignment to `uint16_t` keeps them. */
  function Wrap16(x: int): uint16 { x % 0x1_0000 }

  /** The low 32 bits of x, as a C assignment to `uint32_t` keeps them. */
  function Wrap32(x: int): uint32 { x % 0x1_0000_0000 }

  /** The low 8 bits of x, as a C assignment to `uint8_t` keeps them. */
  function Wrap8(x: int): uint8 { x % 0x100 }

  /** `(int16_t) v`: the two's-complement reading of a 16-bit value. */
  function AsInt16(v: uint16): (r: int)
    ensures -0x8000 <= r < 0x8000
    ensures Wrap16(r) == v
  {
    if v < 0x8000 then v else v - 0x1_0000
  }

  /** Big-endian 16-bit read at index i (`jk_get_16bit`). */
  function Get16(data: seq<byte>, i: nat): uint16
    requires i + 2 <= |data|
  {
    data[i] as int * 0x100 + data[i + 1] as int
  }

  /** Big-endian 32-bit read at index i (`jk_get_32bit`): two 16-bit reads. */
  function Get32(data: seq<byte>, i: nat): uint32
    requires i + 4 <= |data|
  {
    Get16(data, i) * 0x1_0000 + Get16(data, i + 2)
  }

  /** The two payload bytes `[v >> 8, (uint8_t) v]` of a 16-bit value. */
  function BE16(v: uint16): (r: seq<byte>)
    ensures |r| == 2
  {
    [v / 0x100, v % 0x100]
  }

  /** The four payload bytes `[v >> 24, v >> 16, v >> 8, (uint8_t) v]` of a 32-bit value. */
  function BE32(v: uint32): (r: seq<byte>)
    ensures |r| == 4
  {
    BE16(v / 0x1_0000) + BE16(v % 0x1_0000)
  }

  /** Reading back what BE16 wrote gives the value again. */
  lemma Get16OfBE16(v: uint16)
    ensures Get16(BE16(v), 0) == v
  {
  }

  /** Writing what Get16 read gives the same two bytes again. */
  lemma BE16OfGet16(data: seq<byte>, i: nat)
    requires i + 2 <= |data|
    ensures BE16(Get16(data, i)) == data[i..i + 2]
  {
    var hi: int, lo: int := data[i], data[i + 1];
    assert (hi * 0x100 + lo) / 0x100 == hi && (hi * 0x100 + lo) % 0x100 == lo;
  }

  /** Reading back what BE32 wrote gives the value again. */
  lemma Get32OfBE32(v: uint32)
    ensures Get32(BE32(v), 0) == v
  {
    Get16OfBE16(v / 0x1_0000);
    Get16OfBE16(v % 0x1_0000);
    assert BE32(v)[2..4] == BE16(v % 0x1_0000);
  }
}
