/** Bytes, little-endian 32-bit words and NUL-terminated strings, the vocabulary
    that every component of the kernel shares. */
module Bytes {

  type Byte = x: int | 0 <= x < 256

  /** One more than the largest `unsigned int` or `size_t` of the 32-bit target. */
  const WORD := 0x1_0000_0000

  /** The 32-bit little-endian word stored at `off`. */
  function Word(m: seq<Byte>, off: nat): (w: nat)
    requires off + 4 <= |m|
    ensures w < WORD
  {
    var b0: int, b1: int, b2: int, b3: int := m[off], m[off + 1], m[off + 2], m[off + 3];
    b0 + 256 * b1 + 65536 * b2 + 16777216 * b3
  }

  /** The four bytes that store `v`. */
  function Word32(v: nat): (s: seq<Byte>)
    requires v < WORD
    ensures |s| == 4 && Word(s, 0) == v
  {
    var v1 := v / 256;
    var v2 := v1 / 256;
    [v % 256, v1 % 256, v2 % 256, v2 / 256]
  }

  lemma Word32OfWord(m: seq<Byte>, off: nat)
    requires off + 4 <= |m|
    ensures Word32(Word(m, off)) == m[off..off + 4]
  {
    var b1: int, b2: int, b3: int := m[off + 1], m[off + 2], m[off + 3];
    assert Word(m, off) / 256 == b1 + 256 * b2 + 65536 * b3;
    assert Word(m, off) / 256 / 256 == b2 + 256 * b3;
  }

  /** A word depends on nothing but its own four bytes. */
  lemma WordFrame(m: seq<Byte>, m': seq<Byte>, off: nat)
    requires off + 4 <= |m| && off + 4 <= |m'|
    requires forall k | off <= k < off + 4 :: m[k] == m'[k]
    ensures Word(m, off) == Word(m', off)
  {
  }

  lemma MulMonotone(k: nat, a: nat, b: nat)
    requires a <= b
    ensures k * a <= k * b
  {
  }
}
