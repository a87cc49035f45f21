/** Bytes, and 32-bit numbers made of them. */
module Bytes {
  import opened Values

  type byte = b: int | 0 <= b < 256

  /** The big-endian number at a position. */
  function Big32(b: seq<byte>, at: nat): (x: int)
    requires at + 4 <= |b|
    ensures 0 <= x < W32
  {
    b[at] as int * 0x100_0000 + b[at + 1] as int * 0x1_0000 + b[at + 2] as int * 0x100 + b[at + 3] as int
  }

  function Little32(b: seq<byte>, at: nat): (x: int)
    requires at + 4 <= |b|
    ensures 0 <= x < W32
  {
    b[at + 3] as int * 0x100_0000 + b[at + 2] as int * 0x1_0000 + b[at + 1] as int * 0x100 + b[at] as int
  }

  lemma Digits(x: int)
    requires 0 <= x < W32
    ensures x == x / 0x100_0000 * 0x100_0000 + x / 0x1_0000 % 0x100 * 0x1_0000 + x / 0x100 % 0x100 * 0x100 + x % 0x100
    ensures 0 <= x / 0x100_0000 < 0x100
  {
    assert x / 0x100 / 0x100 == x / 0x1_0000 && x / 0x1_0000 / 0x100 == x / 0x100_0000;
  }

  /** A number as four bytes in big-endian order. */
  function Four(x: int): (b: seq<byte>)
    requires 0 <= x < W32
    ensures |b| == 4 && Big32(b, 0) == x
  {
    Digits(x);
    [x / 0x100_0000, x / 0x1_0000 % 0x100, x / 0x100 % 0x100, x % 0x100]
  }
}
