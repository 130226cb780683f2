/** Fixed-width unsigned integers and their network-order (big-endian) encodings. */
module Wire {

  type byte = x: int | 0 <= x < 0x100
  type uint16 = x: int | 0 <= x < 0x1_0000
  type uint32 = x: int | 0 <= x < 0x1_0000_0000
  type uint64 = x: int | 0 <= x < 0x1_0000_0000_0000_0000

  /** A 16-bit value in network order, as htons lays it out. */
  function BE16(x: uint16): (r: seq<byte>)
    ensures |r| == 2
  {
    [x / 0x100, x % 0x100]
  }

  /** The 16-bit value stored in network order at offset off of s. */
  function ReadBE16(s: seq<byte>, off: nat): uint16
    requires off + 2 <= |s|
  {
    (s[off] as int) * 0x100 + s[off + 1] as int
  }

  /** A 32-bit value in network order, as htonl lays it out. */
  function BE32(x: uint32): (r: seq<byte>)
    ensures |r| == 4
  {
    [x / 0x100_0000, (x / 0x1_0000) % 0x100, (x / 0x100) % 0x100, x % 0x100]
  }

  /** The 32-bit value stored in network order at offset off of s. */
  function ReadBE32(s: seq<byte>, off: nat): uint32
    requires off + 4 <= |s|
  {
    (((s[off] as int) * 0x100 + s[off + 1] as int) * 0x100 + s[off + 2] as int) * 0x100 + s[off + 3] as int
  }

  /** Reading back a written 16-bit field gives the value, wherever the field sits. */
  lemma BE16Read(x: uint16, pre: seq<byte>, post: seq<byte>)
    ensures ReadBE16(pre + BE16(x) + post, |pre|) == x
  {
  }

  /** Reading back a written 32-bit field gives the value, wherever the field sits. */
  lemma BE32Read(x: uint32, pre: seq<byte>, post: seq<byte>)
    ensures ReadBE32(pre + BE32(x) + post, |pre|) == x
  {
    var s := pre + BE32(x) + post;
    var b := BE32(x);
    assert s[|pre|] == b[0] && s[|pre| + 1] == b[1] && s[|pre| + 2] == b[2] && s[|pre| + 3] == b[3];
    assert (b[0] as int) * 0x100 + b[1] as int == x / 0x1_0000;
    assert (x / 0x1_0000) * 0x100 + b[2] == x / 0x100;
    assert (x / 0x100) * 0x100 + b[3] == x;
  }

  /** s with the bytes at [off, off + |b|) replaced by b: a write at a fixed offset. */
  function Overwrite(s: seq<byte>, off: nat, b: seq<byte>): (r: seq<byte>)
    requires off + |b| <= |s|
    ensures |r| == |s|
    ensures forall i :: 0 <= i < |s| ==> r[i] == if off <= i < off + |b| then b[i - off] else s[i]
  {
    s[..off] + b + s[off + |b|..]
  }
}
