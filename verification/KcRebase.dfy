/** Addresses as a collection with threaded rebasing stores them.  Masks and shifts are written as quotients and
    remainders by powers of two. */
module KcRebase {
  import opened Values

  const P42: int := 0x400_0000_0000
  const P43: int := 0x800_0000_0000
  const P51: int := 0x8_0000_0000_0000
  const P56: int := 0x100_0000_0000_0000
  const P62: int := 0x4000_0000_0000_0000
  const P63: int := 0x8000_0000_0000_0000

  /** getRebasedPointerValue; None where the tool stops because the value is not a rebase. */
  function RebasedPointer(raw: u64, threaded: bool, base: u64): Option<u64> {
    if !threaded then Some(raw)
    else if raw / P62 % 2 != 0 then None
    else if raw / P63 % 2 != 0 then Some((raw % W32 + base) % W64)
    else Some(raw / P43 % 256 * P56 + LowBytes(raw % P43))
  }

  /** 43 bits shifted up by 21 and back down as a signed number, without the top byte. */
  function LowBytes(bottom43: int): (r: int)
    requires 0 <= bottom43 < P43
    ensures 0 <= r < P56
  {
    if bottom43 < P42 then bottom43 else bottom43 + P56 - P43
  }

  /** A pointer fits when bits 43 to 55 repeat bit 42. */
  predicate Fits(p: u64) { p % P56 < P42 || p % P56 >= P56 - P42 }

  /** A pointer in 51 bits: its top byte above its bottom 43 bits. */
  function Packed(p: u64): (r: int)
    ensures 0 <= r < P51
  {
    p / P56 * P43 + p % P43
  }

  lemma Low43(x: int, k: int, r: int)
    requires x == k * P43 + r && 0 <= r < P43
    ensures x / P43 == k && x % P43 == r
  {
  }

  lemma Low56(x: int, k: int, r: int)
    requires x == k * P56 + r && 0 <= r < P56
    ensures x / P56 == k && x % P56 == r
  {
  }

  lemma Low51(x: int, k: int, r: int)
    requires x == k * P51 + r && 0 <= r < P51
    ensures x % P51 == r
  {
  }

  lemma PackedParts(p: u64, high: int)
    requires 0 <= high < 0x800
    ensures var raw := high * P51 + Packed(p);
      raw / P43 % 256 == p / P56 && raw % P43 == p % P43 && 0 <= raw < P62
  {
    var raw := high * P51 + Packed(p);
    Low43(raw, high * 256 + p / P56, p % P43);
  }

  /** The low bytes come back exactly if they fit. */
  lemma LowBytesBack(b: int)
    requires 0 <= b < P56
    ensures LowBytes(b % P43) == b <==> b < P42 || b >= P56 - P42
  {
    var c, d := b / P43, b % P43;
    assert b == c * P43 + d && 0 <= c < 0x2000;
  }

  lemma PlainRebase(raw: u64, base: u64)
    requires raw < P62
    ensures RebasedPointer(raw, true, base) == Some(raw / P43 % 256 * P56 + LowBytes(raw % P43))
  {
  }

  /** Every pointer that fits comes back, whatever is stored in the 11 bits above it, and only those that fit do. */
  lemma PointerRoundTrip(p: u64, high: int, base: u64)
    requires 0 <= high < 0x800
    ensures RebasedPointer(high * P51 + Packed(p), true, base) == Some(p) <==> Fits(p)
  {
    hide RebasedPointer, Packed, LowBytes;
    PackedParts(p, high);
    PlainRebase(high * P51 + Packed(p), base);
    var a, b := p / P56, p % P56;
    assert p == a * P56 + b;
    Low43(p, a * 0x2000 + b / P43, b % P43);
    LowBytesBack(b);
  }

  /** A value that is a rebase and not authenticated is a pointer that fits: nothing but the 11 bits is lost. */
  lemma RebasedPacks(raw: u64, base: u64)
    requires raw < P62
    ensures var r := RebasedPointer(raw, true, base); r.Some? && Fits(r.value) && Packed(r.value) == raw % P51
  {
    var top8, bottom43 := raw / P43 % 256, raw % P43;
    var low := LowBytes(bottom43);
    var p := top8 * P56 + low;
    Low56(p, top8, low);
    Low43(p, top8 * 0x2000 + (if bottom43 < P42 then 0 else 0x1FFF), bottom43);
    Low51(raw, raw / P43 / 256, top8 * P43 + bottom43);
    assert Packed(p) == top8 * P43 + bottom43;
    assert RebasedPointer(raw, true, base) == Some(p);
  }

  /** The stored value stands for the address: itself; with threaded rebasing, if bit 62 is clear, the address packed in
      51 bits, or with bit 63 set its distance from the base in 32 bits. */
  predicate Stored(raw: u64, threaded: bool, base: u64, address: u64) {
    if !threaded then raw == address
    else if raw >= 0x8000_0000_0000_0000 then
      raw < 0xC000_0000_0000_0000 && address == (raw % 0x1_0000_0000 + base) % 0x1_0000_0000_0000_0000
    else
      && raw < 0x4000_0000_0000_0000
      && (address % 0x100_0000_0000_0000 < 0x400_0000_0000 || address % 0x100_0000_0000_0000 >= 0xFF_FC00_0000_0000)
      && raw % 0x8_0000_0000_0000 == address / 0x100_0000_0000_0000 * 0x800_0000_0000 + address % 0x800_0000_0000
  }

  lemma HighBits(raw: u64)
    ensures raw / P62 % 2 != 0 <==>
      0x4000_0000_0000_0000 <= raw < 0x8000_0000_0000_0000 || raw >= 0xC000_0000_0000_0000
    ensures raw / P63 % 2 != 0 <==> raw >= 0x8000_0000_0000_0000
  {
    var q := raw / P62;
    assert 0 <= q < 4;
    assert raw / P63 == q / 2;
  }

  /** Exactly the values that stand for an address are rebased, and to that address. */
  lemma RebasedIsStored(raw: u64, threaded: bool, base: u64, address: u64)
    ensures RebasedPointer(raw, threaded, base) == Some(address) <==> Stored(raw, threaded, base, address)
  {
    hide Packed, LowBytes;
    HighBits(raw);
    if threaded && raw < P62 {
      var high := raw / P51;
      RebasedPacks(raw, base);
      if Packed(address) == raw % P51 {
        assert raw == high * P51 + Packed(address);
        PointerRoundTrip(address, high, base);
      }
      PackedIs(address);
    }
  }

  lemma PackedIs(p: u64)
    ensures Packed(p) == p / 0x100_0000_0000_0000 * 0x800_0000_0000 + p % 0x800_0000_0000
  {
  }
}
