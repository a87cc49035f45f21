/** Decompressing what was compressed. */
module LzssRoundTrip {
  import opened LzssKeys
  import opened LzssBuffer
  import opened LzssFormat
  import opened LzssParse
  import opened LzssDecoder
  import opened LzssEncoder

  /** Every output that the compressor can produce is decompressed, into any buffer with room for the
      source and whatever the decoder's memory held before, to the source. */
  lemma CodeDecodes(src: seq<byte>, us: seq<Unit>, stale: seq<byte>, dstlen: nat)
    requires Emitted(src, us, |src|) && |stale| == F && |src| <= dstlen
    ensures Decoded(stale, Code(us)) == src
    ensures Min(dstlen, |src|) == |src|
  {
    EmittedDecodes(src, us, stale);
  }

  /** Compresses and decompresses. */
  method RoundTrip(src: seq<byte>, packed: array<byte>, text: array<byte>, stale: seq<byte>) returns (ok: bool, n: int)
    requires packed != text && |stale| == F && |src| <= text.Length
    modifies packed, text
    ensures ok <==> src != [] && CompressedSize(src) <= packed.Length
    ensures ok ==> n == AsInt32(|src|) && text[..|src|] == src && text[|src|..] == old(text[|src|..])
    ensures |src| + (|src| + 7) / 8 <= packed.Length && src != [] ==> ok
  {
    hide Code, Decoded, Filled, Parses, CompressedSize, BodyBytes, UnitCount, BodySize;
    var m: nat;
    n := 0;
    ok, m := CompressLzss(packed, 0, packed.Length, src);
    CompressedSizeBound(src);
    if !ok { return; }
    ghost var us :| Emitted(src, us, |src|) && 0 + |Code(us)| <= packed.Length
      && packed[..] == Filled(old(packed[..]), 0, Code(us));
    EmittedFits(src, us, |src|);
    CodeDecodes(src, us, stale, text.Length);
    FilledParts(old(packed[..]), 0, Code(us));
    assert packed[..m] == packed[0..m];
    FilledParts(text[..], 0, src);
    n := DecompressLzss(text, 0, text.Length, packed[..m], stale);
    assert Decoded(stale, packed[..m])[..|src|] == src;
    assert text[..|src|] == text[0..0 + |src|] && text[|src|..] == text[0 + |src|..];
  }
}
