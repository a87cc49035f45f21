/** A caller's buffer, written from some position on. */
module LzssBuffer {
  import opened LzssKeys

  ghost function Min(a: int, b: int): int { if a < b then a else b }

  /** A buffer with `out` written from `at` on. */
  ghost function Filled(before: seq<byte>, at: nat, out: seq<byte>): (s: seq<byte>)
    requires at + |out| <= |before|
    ensures |s| == |before|
  {
    before[..at] + out + before[at + |out|..]
  }

  lemma FilledPut(before: seq<byte>, at: nat, out: seq<byte>, c: byte)
    requires at + |out| < |before|
    ensures Filled(before, at, out)[at + |out| := c] == Filled(before, at, out + [c])
  {
  }

  lemma FilledParts(before: seq<byte>, at: nat, out: seq<byte>)
    requires at + |out| <= |before|
    ensures Filled(before, at, out)[..at] == before[..at]
    ensures Filled(before, at, out)[at..at + |out|] == out
    ensures Filled(before, at, out)[at + |out|..] == before[at + |out|..]
  {
  }
}
