/** Fixed-width big-endian fields of the on-disk HFS Plus structures.
    Every multi-byte field is read through be16toh/be32toh/be64toh; here a
    field is decoded straight from the bytes at its offset, so no host byte
    order appears anywhere in the model. */
module Bytes {

  type byte = bv8

  /** The value of the 16-bit big-endian field starting at s[o]. */
  function BE16(s: seq<byte>, o: nat): bv16
    requires o + 2 <= |s|
  {
    (s[o] as bv16 << 8) | s[o + 1] as bv16
  }

  /** The value of the 32-bit big-endian field starting at s[o]. */
  function BE32(s: seq<byte>, o: nat): bv32
    requires o + 4 <= |s|
  {
    (BE16(s, o) as bv32 << 16) | BE16(s, o + 2) as bv32
  }

  /** The value of the 64-bit big-endian field starting at s[o]. */
  function BE64(s: seq<byte>, o: nat): bv64
    requires o + 8 <= |s|
  {
    (BE32(s, o) as bv64 << 32) | BE32(s, o + 4) as bv64
  }

  /** The two bytes that store x big-endian. */
  function Enc16(x: bv16): (r: seq<byte>)
    ensures |r| == 2
  {
    [(x >> 8) as bv8, (x & 0xFF) as bv8]
  }

  function Enc32(x: bv32): (r: seq<byte>)
    ensures |r| == 4
  {
    [(x >> 24) as bv8, ((x >> 16) & 0xFF) as bv8, ((x >> 8) & 0xFF) as bv8, (x & 0xFF) as bv8]
  }

  function Enc64(x: bv64): (r: seq<byte>)
    ensures |r| == 8
  {
    [(x >> 56) as bv8, ((x >> 48) & 0xFF) as bv8, ((x >> 40) & 0xFF) as bv8, ((x >> 32) & 0xFF) as bv8,
     ((x >> 24) & 0xFF) as bv8, ((x >> 16) & 0xFF) as bv8, ((x >> 8) & 0xFF) as bv8, (x & 0xFF) as bv8]
  }

  /** Reading a field back from where it was stored gives the stored value. */
  lemma BE16Enc16(x: bv16, pre: seq<byte>, post: seq<byte>)
    ensures BE16(pre + Enc16(x) + post, |pre|) == x
  {
    var s := pre + Enc16(x) + post;
    assert s[|pre|] == (x >> 8) as bv8 && s[|pre| + 1] == (x & 0xFF) as bv8;
  }

  lemma BE32Enc32(x: bv32, pre: seq<byte>, post: seq<byte>)
    ensures BE32(pre + Enc32(x) + post, |pre|) == x
  {
    var s, o := pre + Enc32(x) + post, |pre|;
    assert s[o] == Enc32(x)[0] && s[o + 1] == Enc32(x)[1] && s[o + 2] == Enc32(x)[2] && s[o + 3] == Enc32(x)[3];
  }

  lemma BE64Enc64(x: bv64, pre: seq<byte>, post: seq<byte>)
    ensures BE64(pre + Enc64(x) + post, |pre|) == x
  {
    var s, o := pre + Enc64(x) + post, |pre|;
    assert forall k | 0 <= k < 8 :: s[o + k] == Enc64(x)[k];
  }

  /** Storing the value read at o reproduces the bytes it was read from. */
  lemma Enc16BE16(s: seq<byte>, o: nat)
    requires o + 2 <= |s|
    ensures Enc16(BE16(s, o)) == s[o..o + 2]
  {
  }

  lemma Enc32BE32(s: seq<byte>, o: nat)
    requires o + 4 <= |s|
    ensures Enc32(BE32(s, o)) == s[o..o + 4]
  {
  }

  lemma Enc64BE64(s: seq<byte>, o: nat)
    requires o + 8 <= |s|
    ensures Enc64(BE64(s, o)) == s[o..o + 8]
  {
  }

  /** The two's-complement reading of a field the C structure declares signed. */
  function Signed8(x: bv8): (r: int)
    ensures -0x80 <= r < 0x80
  {
    var v := x as int;
    if v < 0x80 then v else v - 0x100
  }

  function Signed16(x: bv16): (r: int)
    ensures -0x8000 <= r < 0x8000
  {
    var v := x as int;
    if v < 0x8000 then v else v - 0x1_0000
  }

  function Signed32(x: bv32): (r: int)
    ensures -0x8000_0000 <= r < 0x8000_0000
  {
    var v := x as int;
    if v < 0x8000_0000 then v else v - 0x1_0000_0000
  }

  lemma Signed8Agrees(x: bv8)
    ensures Signed8(x) == x as int <==> x < 0x80
  {
  }

  lemma Signed16Agrees(x: bv16)
    ensures Signed16(x) == x as int <==> x < 0x8000
  {
  }

  lemma Signed32Agrees(x: bv32)
    ensures Signed32(x) == x as int <==> x < 0x8000_0000
  {
  }

  /** A one-byte field reads back as stored. */
  lemma At8(x: byte, pre: seq<byte>, post: seq<byte>)
    ensures (pre + [x] + post)[|pre|] == x
  {
  }
}
