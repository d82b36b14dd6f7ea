/**
 Bytes and big-endian integers as they stand in a DNS message: the cursor primitives
 of src/dns/encode.hpp, seen as functions on byte sequences.
 */
module WireBytes {

  type byte = x: int | 0 <= x < 256
  type uint16 = x: int | 0 <= x < 0x1_0000
  type uint32 = x: int | 0 <= x < 0x1_0000_0000
  type Bytes = seq<byte>

  datatype Option<+T> = None | Some(value: T)

  /** The two bytes of a 16-bit integer, most significant first. */
  function U16(v: uint16): (b: Bytes)
    ensures |b| == 2
  {
    [v / 0x100, v % 0x100]
  }

  function U32(v: uint32): (b: Bytes)
    ensures |b| == 4
  {
    U16(v / 0x1_0000) + U16(v % 0x1_0000)
  }

  /** The 16-bit integer whose bytes stand at `at`. */
  function ReadU16(b: Bytes, at: nat): uint16
    requires at + 2 <= |b|
  {
    (b[at] as int) * 0x100 + b[at + 1]
  }

  function ReadU32(b: Bytes, at: nat): uint32
    requires at + 4 <= |b|
  {
    (ReadU16(b, at) as int) * 0x1_0000 + ReadU16(b, at + 2)
  }

  lemma ConcatAssoc(a: Bytes, b: Bytes, c: Bytes)
    ensures a + (b + c) == a + b + c
  {
  }

  lemma PrefixRest(a: Bytes, b: Bytes)
    requires a <= b
    ensures b == a + b[|a|..]
  {
  }

  /** What is written is read back, wherever in a message it stands. */
  lemma U16RoundTrip(pre: Bytes, v: uint16, post: Bytes)
    ensures ReadU16(pre + U16(v) + post, |pre|) == v
  {
  }

  lemma U32RoundTrip(pre: Bytes, v: uint32, post: Bytes)
    ensures ReadU32(pre + U32(v) + post, |pre|) == v
  {
  }

  /** What is read is what would be written: the other direction. */
  lemma ReadU16Bytes(b: Bytes, at: nat)
    requires at + 2 <= |b|
    ensures U16(ReadU16(b, at)) == b[at..at + 2]
  {
    var v := (b[at] as int) * 0x100 + b[at + 1];
    assert v / 0x100 == b[at] && v % 0x100 == b[at + 1];
  }

  lemma ReadU32Bytes(b: Bytes, at: nat)
    requires at + 4 <= |b|
    ensures U32(ReadU32(b, at)) == b[at..at + 4]
  {
    var hi: int, lo: int := ReadU16(b, at), ReadU16(b, at + 2);
    assert (hi * 0x1_0000 + lo) / 0x1_0000 == hi && (hi * 0x1_0000 + lo) % 0x1_0000 == lo;
    ReadU16Bytes(b, at);
    ReadU16Bytes(b, at + 2);
    assert b[at..at + 4] == b[at..at + 2] + b[at + 2..at + 4];
  }
}
