/** The checksum of section 2.2 of RFC 1950, with the reductions put off for 5000 bytes at a time. */
module Adler32 {
  import opened Values
  import opened LzssKeys

  const BASE: int := 65521

  /** The sums of the definition: s1 adds the bytes to 1, s2 adds the values s1 takes, modulo BASE. */
  ghost function S1(s: seq<byte>): (r: int)
    ensures 0 <= r < BASE
  {
    if s == [] then 1 else (S1(s[..|s| - 1]) + s[|s| - 1]) % BASE
  }

  ghost function S2(s: seq<byte>): (r: int)
    ensures 0 <= r < BASE
  {
    if s == [] then 0 else (S2(s[..|s| - 1]) + S1(s)) % BASE
  }

  /** The checksum of a string of bytes. */
  ghost function Adler(s: seq<byte>): (r: int)
    ensures 0 <= r < 0x1_0000_0000
  {
    S2(s) * 65536 + S1(s)
  }

  lemma SumsStart(s: seq<byte>)
    ensures S1(s[..0]) == 1 && S2(s[..0]) == 0
  {
  }

  lemma SumsAppend(s: seq<byte>, k: nat)
    requires k < |s|
    ensures S1(s[..k + 1]) == (S1(s[..k]) + s[k]) % BASE
    ensures S2(s[..k + 1]) == (S2(s[..k]) + S1(s[..k + 1])) % BASE
  {
    assert s[..k + 1][..k] == s[..k];
  }

  /** How far the second sum can get in k bytes after a reduction. */
  ghost function HighBound(k: nat): (h: int)
    ensures 2 * h == 131040 * (k + 1) + 255 * (k * k + k)
  {
    if k == 0 then 65520
    else
      assert k * k == (k - 1) * (k - 1) + 2 * (k - 1) + 1;
      HighBound(k - 1) + 65520 + 255 * k
  }

  lemma HighBoundIs(k: nat)
    ensures HighBound(k) == if k == 0 then 65520 else HighBound(k - 1) + 65520 + 255 * k
  {
  }

  lemma ProductMonotone(a: nat, b: nat, c: nat)
    requires a <= b
    ensures a * c <= b * c
  {
  }

  lemma HighBoundFits(k: nat)
    requires k <= 5000
    ensures HighBound(k) < 0x1_0000_0000
  {
    ProductMonotone(k, 5000, k);
  }

  lemma ReduceFirst(x: int, y: int)
    ensures (x % BASE) % BASE == x % BASE
    ensures (x % BASE + y) % BASE == (x + y) % BASE
  {
    assert x + y == BASE * (x / BASE) + (x % BASE + y);
  }

  /** One byte added to sums that are right modulo BASE. */
  lemma SumsStep(s: seq<byte>, k: nat, low: int, high: int)
    requires k < |s| && low % BASE == S1(s[..k]) && high % BASE == S2(s[..k])
    ensures (low + s[k]) % BASE == S1(s[..k + 1]) && (high + (low + s[k])) % BASE == S2(s[..k + 1])
  {
    SumsAppend(s, k);
    ReduceFirst(low, s[k] as int);
    ReduceFirst(high, low + s[k]);
    ReduceFirst(low + s[k], high % BASE);
  }

  /** The sums are kept in 32 bits: that none of them overflows is what their type checks. */
  method LocalAdler32(buffer: seq<byte>, length: int) returns (result: uint32)
    requires -0x8000_0000 <= length < 0x8000_0000 && length <= |buffer|
    ensures result as int == Adler(buffer[..if length < 0 then 0 else length])
  {
    hide S1, S2, HighBound;
    SumsStart(buffer);
    HighBoundIs(0);
    var lowHalf: uint32, highHalf: uint32 := 1, 0;
    var cnt := 0;
    ghost var k: nat := 0;   // bytes since the last reduction
    while cnt < length
      invariant 0 <= cnt && (cnt <= length || cnt == 0)
      invariant k <= 5000 && k <= cnt && (cnt - k) % 5000 == 0
      invariant lowHalf as int <= 65520 + 255 * k && highHalf as int <= HighBound(k)
      invariant lowHalf as int % BASE == S1(buffer[..cnt]) && highHalf as int % BASE == S2(buffer[..cnt])
    {
      if cnt % 5000 == 0 {
        ReduceFirst(lowHalf as int, 0);
        ReduceFirst(highHalf as int, 0);
        lowHalf := lowHalf % 65521;
        highHalf := highHalf % 65521;
        k := 0;
      }
      HighBoundFits(k + 1);
      HighBoundIs(k + 1);
      SumsStep(buffer, cnt, lowHalf as int, highHalf as int);
      lowHalf := lowHalf + buffer[cnt] as uint32;
      highHalf := highHalf + lowHalf;
      cnt := cnt + 1;
      k := k + 1;
    }
    lowHalf := lowHalf % 65521;
    highHalf := highHalf % 65521;
    assert buffer[..cnt] == buffer[..if length < 0 then 0 else length];
    result := highHalf * 65536 + lowHalf;
  }

  // ---- the checksum in closed form ----

  /** The sum of the bytes. */
  function Sum(s: seq<byte>): (n: nat) { if s == [] then 0 else s[0] + Sum(s[1..]) }

  /** The sum of the bytes, each times its distance from the end: the last counts once. */
  function Weighted(s: seq<byte>): (n: nat) { if s == [] then 0 else |s| * s[0] + Weighted(s[1..]) }

  lemma {:induction false} SumsSnoc(s: seq<byte>, c: byte)
    ensures Sum(s + [c]) == Sum(s) + c && Weighted(s + [c]) == Weighted(s) + Sum(s) + c
    decreases |s|
  {
    if s == [] {
      assert s + [c] == [c];
      assert Sum([]) == 0 && [c][1..] == [];
    } else {
      assert (s + [c])[1..] == s[1..] + [c];
      SumsSnoc(s[1..], c);
      assert (|s| + 1) * s[0] == |s| * s[0] + s[0];
    }
  }

  lemma {:induction false} SumsAre(s: seq<byte>)
    ensures S1(s) == (1 + Sum(s)) % 65521 && S2(s) == (|s| + Weighted(s)) % 65521
    decreases |s|
  {
    if s != [] {
      var front, c := s[..|s| - 1], s[|s| - 1];
      SumsAre(front);
      assert s == front + [c] && s[..|s|] == s;
      SumsAppend(s, |front|);
      hide S1, S2, Sum, Weighted;
      SumsSnoc(front, c);
      SumsMeet(S1(front), S2(front), 1 + Sum(front), |front| + Weighted(front), c as int);
    }
  }

  lemma SumsMeet(s1: int, s2: int, low: int, high: int, c: int)
    requires s1 == low % BASE && s2 == high % BASE
    ensures (s1 + c) % BASE == (low + c) % BASE
    ensures (s2 + (s1 + c) % BASE) % BASE == (high + (low + c)) % BASE
  {
    ReduceFirst(low, c);
    ReduceFirst(high, (s1 + c) % BASE);
    ReduceFirst(low + c, high);
  }

  /** The low half is one more than the sum of the bytes, the high half the number of bytes more than the weighted sum,
      both modulo 65521. */
  lemma ClosedForm(s: seq<byte>)
    ensures Adler(s) % 65536 == (1 + Sum(s)) % 65521
    ensures Adler(s) / 65536 == (|s| + Weighted(s)) % 65521
  {
    hide S1, S2, Sum, Weighted;
    SumsAre(s);
  }
}
