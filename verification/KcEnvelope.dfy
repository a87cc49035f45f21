/** The envelope of a compressed kernel: a header of 384 bytes in big-endian order, then the compressed bytes. */
module KcEnvelope {
  import opened Values
  import opened Bytes
  import LzssKeys
  import opened LzssBuffer
  import opened LzssWindow
  import opened LzssFormat
  import opened LzssParse
  import opened LzssDecoder
  import opened LzssEncoder
  import opened LzssRoundTrip
  import Adler32

  const HEADER: nat := 384
  const COMP: int := 0x636F_6D70          // 'comp'
  const LZSS: int := 0x6C7A_7373          // 'lzss'

  // the fields of the header, 4 bytes each; what follows them is unused
  const SIGNATURE: nat := 0
  const TYPE: nat := 1
  const CHECKSUM: nat := 2
  const SIZE: nat := 3
  const PACKED: nat := 4
  const VERSION: nat := 5
  const FIELDS: nat := 6

  /** OutOfBounds when the image ends inside the header. */
  datatype Unpacked = Refused | OutOfBounds | Unpacked(text: seq<byte>)

  /** Overrun when the compressed bytes are more than the buffer behind them. */
  datatype Slice = NoSlice | Overrun | Slice(bytes: seq<byte>)

  function Field(b: seq<byte>, i: nat): int
    requires i < FIELDS && |b| >= HEADER
  {
    Big32(b, 4 * i)
  }

  /** Stores x in big-endian order. */
  method PutField(buf: array<byte>, i: nat, x: int)
    requires i < FIELDS && buf.Length >= HEADER && 0 <= x < W32
    modifies buf
    ensures Field(buf[..], i) == x
    ensures forall j :: 0 <= j < FIELDS && j != i ==> Field(buf[..], j) == old(Field(buf[..], j))
    ensures forall j :: 4 * FIELDS <= j < buf.Length ==> buf[j] == old(buf[j])
  {
    Digits(x);
    buf[4 * i] := x / 0x100_0000;
    buf[4 * i + 1] := x / 0x1_0000 % 0x100;
    buf[4 * i + 2] := x / 0x100 % 0x100;
    buf[4 * i + 3] := x % 0x100;
  }

  /** The header of an image. */
  ghost predicate IsHeader(h: seq<byte>, image: seq<byte>, packed: int, hasRelocs: bool) {
    && |h| >= HEADER
    && Field(h, SIGNATURE) == COMP && Field(h, TYPE) == LZSS && Field(h, CHECKSUM) == Adler32.Adler(Summed(image))
    && Field(h, SIZE) == |image| % W32 && Field(h, PACKED) == packed
    && Field(h, VERSION) == (if hasRelocs then 1 else 0)
    && forall j :: 4 * FIELDS <= j < HEADER ==> h[j] == 0
  }

  predicate Signed(image: seq<byte>) { |image| >= 4 && Big32(image, 0) == COMP }

  /** The compressed bytes, as many as a 32-bit length says. */
  function Body(image: seq<byte>): seq<byte>
    requires |image| >= HEADER
  {
    image[HEADER..HEADER + (|image| - HEADER) % W32]
  }

  /** What uncompressing an image gives: its text, when the size and the checksum are right. */
  ghost function Uncompressed(image: seq<byte>, stale: seq<byte>): Unpacked
    requires |stale| == LzssKeys.F
  {
    if |image| < HEADER then OutOfBounds
    else
      var text := Decoded(stale, Body(image));
      var size := Field(image, SIZE);
      if && Field(image, SIGNATURE) == COMP && Field(image, TYPE) == LZSS
         && size < 0x8000_0000 && size <= |text| && Adler32.Adler(text[..size]) == Field(image, CHECKSUM)
      then Unpacked(text[..size])
      else Refused
  }

  /** The decompressor returns a signed number: sizes from 2^31 on do not come back. */
  lemma SizeSurvives(n: nat, size: nat)
    requires n <= size < W32
    ensures AsInt32(n) == size <==> n == size < 0x8000_0000
  {
  }

  /** Signature, type, checksum and size, where they are in a header, are those of the text. */
  ghost predicate Sound(image: seq<byte>, text: seq<byte>) {
    && |image| >= 384 && image[..4] == [0x63, 0x6F, 0x6D, 0x70] && image[4..8] == [0x6C, 0x7A, 0x73, 0x73]
    && Big32(image, 8) == Adler32.Adler(text) && Big32(image, 12) == |text| < 0x8000_0000
  }

  /** r is a sound text; and the part of the code's text that is sound, if there is one. */
  ghost predicate Honest(image: seq<byte>, stale: seq<byte>, r: Unpacked)
    requires |stale| == LzssKeys.F
  {
    && (r.OutOfBounds? <==> |image| < 384)
    && (r.Unpacked? ==> Sound(image, r.text))
    && (384 <= |image| < W32 ==>
          forall text :: Sound(image, text) && text <= Decoded(stale, image[384..]) ==> r == Unpacked(text))
  }

  lemma Spelled(b: seq<byte>, at: nat, w: int, x: int, y: int, z: int)
    requires at + 4 <= |b| && 0 <= w < 256 && 0 <= x < 256 && 0 <= y < 256 && 0 <= z < 256
    ensures Big32(b, at) == w * 0x100_0000 + x * 0x1_0000 + y * 0x100 + z <==> b[at..at + 4] == [w, x, y, z]
  {
  }

  lemma SignatureAndType(b: seq<byte>)
    requires |b| >= HEADER
    ensures Field(b, SIGNATURE) == COMP <==> b[..4] == [0x63, 0x6F, 0x6D, 0x70]
    ensures Field(b, TYPE) == LZSS <==> b[4..8] == [0x6C, 0x7A, 0x73, 0x73]
  {
    Spelled(b, 0, 0x63, 0x6F, 0x6D, 0x70);
    Spelled(b, 4, 0x6C, 0x7A, 0x73, 0x73);
  }

  /** Unpacking gives the text of the code exactly if a part of it is sound, and that part. */
  lemma SoundIsUnpacked(image: seq<byte>, stale: seq<byte>)
    requires |stale| == LzssKeys.F
    ensures Honest(image, stale, Uncompressed(image, stale))
  {
    hide Decoded, Adler32.Adler, Big32;
    if |image| >= HEADER {
      SignatureAndType(image);
      assert Field(image, CHECKSUM) == Big32(image, 8) && Field(image, SIZE) == Big32(image, 12);
      if |image| < W32 {
        BodyIs(image, |image| - HEADER);
        var all := Decoded(stale, image[384..]);
        forall text | Sound(image, text) && text <= all ensures Uncompressed(image, stale) == Unpacked(text) {
          assert text == all[..|text|];
        }
      }
    }
  }

  /** uncompressPrelinkedSlice, for LZSS. */
  method UncompressPrelinkedSlice(image: seq<byte>, stale: seq<byte>) returns (r: Unpacked)
    requires |stale| == LzssKeys.F
    ensures r == Uncompressed(image, stale)
    ensures Honest(image, stale, r)
  {
    SoundIsUnpacked(image, stale);
    hide Honest, Decoded, Filled, Body, Adler32.Adler, Adler32.S1, Adler32.S2;
    if |image| < HEADER { return OutOfBounds; }
    if Field(image, SIGNATURE) != COMP || Field(image, TYPE) != LZSS { return Refused; }
    var bufsize := Field(image, SIZE);
    var buf := new byte[bufsize](_ => 0);
    ghost var blank := buf[..];
    ghost var text := Decoded(stale, Body(image));
    ghost var n := Min(bufsize, |text|);
    var uncompsize := DecompressLzss(buf, 0, bufsize, Body(image), stale);
    SizeSurvives(n, bufsize);
    if uncompsize != bufsize { return Refused; }
    FilledParts(blank, 0, text[..bufsize]);
    assert buf[..] == buf[..][0..0 + bufsize];
    var adler := Adler32.LocalAdler32(buf[..], bufsize);
    assert buf[..][..bufsize] == buf[..];
    if adler as int != Field(image, CHECKSUM) { return Refused; }
    r := Unpacked(buf[..]);
  }

  /** The part of an image that a 32-bit length covers. */
  function Seen(image: seq<byte>): seq<byte> { image[..|image| % W32] }

  /** The part that a signed 32-bit length covers. */
  function Summed(image: seq<byte>): seq<byte> {
    var n := AsInt32(|image|);
    image[..if n < 0 then 0 else n]
  }

  /** Neither length cuts an image of less than 2^31 bytes. */
  lemma SmallIsWhole(image: seq<byte>)
    requires |image| < 0x8000_0000
    ensures Seen(image) == image && Summed(image) == image
  {
    assert image[..|image|] == image;
  }

  /** Of larger ones a part is compressed, and a part summed. */
  lemma LargeIsCut(image: seq<byte>)
    ensures Seen(image) <= image && |Seen(image)| < W32 && (|image| - |Seen(image)|) % W32 == 0
    ensures Summed(image) == if |Seen(image)| < 0x8000_0000 then Seen(image) else []
    ensures |image| >= 384 ==>
      Body(image) <= image[384..] && |Body(image)| < W32 && (|image| - 384 - |Body(image)|) % W32 == 0
  {
    Quotient(|image|);
    if |image| >= 384 {
      Quotient(|image| - 384);
      var n := (|image| - 384) % W32;
      assert image[384..][..n] == image[384..384 + n];
    }
  }

  lemma Quotient(n: nat)
    ensures (n - n % W32) % W32 == 0
    ensures AsInt32(n) == if n % W32 < 0x8000_0000 then n % W32 else n % W32 - W32
  {
    var q := n / W32;
    assert n == q * W32 + n % W32;
    assert (n - n % W32) == q * W32;
    var m := n % W32 + 0x8000_0000;
    assert n + 0x8000_0000 == q * W32 + m;
    SameRemainder(m, q);
  }

  lemma SameRemainder(a: int, q: int)
    ensures (a + q * W32) % W32 == a % W32
  {
    assert a + q * W32 == a % W32 + (a / W32 + q) * W32;
  }

  /** Fills in the header but for the size of the compressed bytes. */
  method PutHeader(buf: array<byte>, image: seq<byte>, hasRelocs: bool)
    requires buf.Length >= HEADER
    requires forall j :: 4 * FIELDS <= j < HEADER ==> buf[j] == 0
    requires Field(buf[..], PACKED) == 0
    modifies buf
    ensures IsHeader(buf[..], image, 0, hasRelocs)
  {
    hide Adler32.Adler, Adler32.S1, Adler32.S2, Field;
    PutField(buf, VERSION, if hasRelocs then 1 else 0);
    PutField(buf, SIGNATURE, COMP);
    var adler := Adler32.LocalAdler32(image, AsInt32(|image|));
    PutField(buf, CHECKSUM, adler as int);
    PutField(buf, SIZE, |image| % W32);
    PutField(buf, TYPE, LZSS);
  }

  /** An image in its envelope. */
  ghost predicate Enveloped(image: seq<byte>, bytes: seq<byte>, us: seq<Unit>, hasRelocs: bool) {
    var src := Seen(image);
    && Emitted(src, us, |src|) && |bytes| == HEADER + |Code(us)| && bytes[HEADER..] == Code(us)
    && IsHeader(bytes, image, |Code(us)| % W32, hasRelocs)
  }

  /** The room that the compressor is told it has: that of the whole buffer, in 32 bits. */
  function Room(image: seq<byte>): nat { (|image| + HEADER) % W32 }

  /** compressPrelinkedSlice, for LZSS.  The compressor is told that the whole buffer is behind the header. */
  method CompressPrelinkedSlice(image: seq<byte>, hasRelocs: bool) returns (r: Slice)
    ensures |image| >= 4 && image[..4] == [0x63, 0x6F, 0x6D, 0x70] ==> r.NoSlice?
    ensures r.NoSlice? <==> Signed(image) || Seen(image) == [] || CompressedSize(Seen(image)) > Room(image)
    ensures r.Slice? <==> !r.NoSlice? && CompressedSize(Seen(image)) <= |image|
    ensures r.Slice? ==> exists us :: Enveloped(image, r.bytes, us, hasRelocs)
  {
    hide Code, Filled, CompressedSize, Parses, BodyBytes, UnitCount, BodySize, IsHeader, Adler32.Adler;
    if |image| >= 4 { Spelled(image, 0, 0x63, 0x6F, 0x6D, 0x70); }
    if Signed(image) { return NoSlice; }
    var bufsize := |image| + HEADER;
    var buf := new byte[HEADER + bufsize](_ => 0);
    Blank(buf[..]);
    PutHeader(buf, image, hasRelocs);
    ghost var before := buf[..];
    var ok, compsize := CompressLzss(buf, HEADER, Room(image), Seen(image));
    if !ok { return NoSlice; }
    if compsize > |image| { return Overrun; }
    ghost var src := Seen(image);
    ghost var us :| Emitted(src, us, |src|) && HEADER + |Code(us)| <= buf.Length
      && buf[..] == Filled(before, HEADER, Code(us));
    EmittedFits(src, us, |src|);
    ghost var packed := buf[..];
    FilledParts(before, HEADER, Code(us));
    PutField(buf, PACKED, compsize % W32);
    r := Slice(buf[..HEADER + compsize]);
    Assembled(image, before, packed, buf[..], compsize, us, hasRelocs);
  }

  // ---- when the compressed bytes are more than the buffer behind the header ----

  /** Exactly when the image is cut into units whose flag bytes are more than the bytes that pairs save, and by no more
      than the header has. */
  lemma OverrunCondition(image: seq<byte>)
    requires |image| < 0x8000_0000
    ensures |image| < CompressedSize(Seen(image)) <= Room(image) <==>
      0 < FlagBytes(image) - Saved(image, 0) <= HEADER
  {
    hide UnitCount, BodySize, Saved, Seen;
    SmallIsWhole(image);
    SavedIs(image, 0);
    SizeIs(image);
  }

  lemma SizeIs(src: seq<byte>)
    ensures CompressedSize(src) == BodySize(src, 0) + FlagBytes(src)
  {
  }

  /** So an image in which no match is longer than the threshold overruns exactly if it has at most 3072 bytes; with
      more it is not compressed at all. */
  lemma IncompressibleOverruns(image: seq<byte>)
    requires |image| < 0x8000_0000 && forall pos :: 0 <= pos < |image| ==> Found(image, pos) <= LzssKeys.THRESHOLD
    ensures |image| < CompressedSize(Seen(image)) <= Room(image) <==> 0 < |image| <= 8 * HEADER
    ensures |image| > 8 * HEADER ==> CompressedSize(Seen(image)) > Room(image)
  {
    hide UnitCount, BodySize, Saved, Seen;
    SmallIsWhole(image);
    NothingSaved(image, 0);
    SavedIs(image, 0);
    SizeIs(image);
  }

  /** One byte is such an image. */
  lemma OneByteOverruns(x: byte)
    ensures CompressedSize([x]) == 2 && !Signed([x])
    ensures |[x]| < CompressedSize(Seen([x])) <= Room([x])
  {
    forall pos | 0 <= pos < 1 ensures Found([x], pos) <= LzssKeys.THRESHOLD { }
    IncompressibleOverruns([x]);
    SmallIsWhole([x]);
  }

  lemma Blank(b: seq<byte>)
    requires |b| >= HEADER && forall j :: 0 <= j < |b| ==> b[j] == 0
    ensures Field(b, PACKED) == 0
  {
  }

  /** The header stays in front of the compressed bytes. */
  lemma Assembled(image: seq<byte>, before: seq<byte>, packed: seq<byte>, after: seq<byte>, n: nat, us: seq<Unit>,
                  hasRelocs: bool)
    requires Emitted(Seen(image), us, |Seen(image)|) && |Code(us)| == n
    requires |before| == |packed| == |after| >= HEADER + n && IsHeader(before, image, 0, hasRelocs)
    requires packed[..HEADER] == before[..HEADER] && packed[HEADER..HEADER + n] == Code(us)
    requires Field(after, PACKED) == n % W32
    requires forall j :: 0 <= j < FIELDS && j != PACKED ==> Field(after, j) == Field(packed, j)
    requires forall j :: 4 * FIELDS <= j < |after| ==> after[j] == packed[j]
    ensures Enveloped(image, after[..HEADER + n], us, hasRelocs)
  {
    hide Code, Parses, BodyBytes, UnitCount, BodySize, Adler32.Adler, Field;
    var bytes := after[..HEADER + n];
    FieldOfPrefix(after, HEADER + n);
    FieldOfPrefix(before, HEADER);
    FieldOfPrefix(packed, HEADER);
    assert bytes[HEADER..] == packed[HEADER..HEADER + n];
    forall j | 4 * FIELDS <= j < HEADER ensures bytes[j] == 0 {
      assert packed[..HEADER][j] == before[..HEADER][j];
    }
  }

  lemma FieldOfPrefix(b: seq<byte>, n: nat)
    requires HEADER <= n <= |b|
    ensures forall i :: 0 <= i < FIELDS ==> Field(b[..n], i) == Field(b, i)
  {
  }

  /** Uncompressing what was compressed gives the image back, whatever the decoder's memory held before. */
  lemma EnvelopeRoundTrip(image: seq<byte>, bytes: seq<byte>, us: seq<Unit>, hasRelocs: bool, stale: seq<byte>)
    requires Enveloped(image, bytes, us, hasRelocs) && |image| < 0x8000_0000 && |stale| == LzssKeys.F
    ensures Uncompressed(bytes, stale) == Unpacked(image)
  {
    hide Seen, Summed, Parses, BodyBytes, UnitCount, BodySize, Code, Decoded, CompressedSize, Field, Adler32.Adler;
    SmallIsWhole(image);
    EmittedFits(image, us, |image|);
    CompressedSizeBound(image);
    CodeDecodes(image, us, stale, |image|);
    BodyIs(bytes, |Code(us)|);
    assert image[..|image|] == image;
  }

  /** Where an envelope has what: two words, the checksum, both sizes, the version, zeros up to 384 bytes, the code. */
  lemma EnvelopeLayout(image: seq<byte>, bytes: seq<byte>, us: seq<Unit>, hasRelocs: bool)
    requires Enveloped(image, bytes, us, hasRelocs) && |image| < 0x8000_0000
    ensures Sound(bytes, image)
    ensures Big32(bytes, 16) == |Code(us)| && Big32(bytes, 20) == (if hasRelocs then 1 else 0)
    ensures (forall j :: 24 <= j < 384 ==> bytes[j] == 0) && bytes[384..] == Code(us)
  {
    hide Code, Parses, BodyBytes, Adler32.Adler;
    SmallIsWhole(image);
    EmittedFits(image, us, |image|);
    CompressedSizeBound(image);
    SignatureAndType(bytes);
    assert Field(bytes, CHECKSUM) == Big32(bytes, 8) && Field(bytes, SIZE) == Big32(bytes, 12);
    assert Field(bytes, PACKED) == Big32(bytes, 16) && Field(bytes, VERSION) == Big32(bytes, 20);
  }

  /** An envelope whose signature, type or checksum has been changed to anything else is refused. */
  method UncompressDamaged(damaged: seq<byte>, stale: seq<byte>, ghost image: seq<byte>, ghost bytes: seq<byte>,
                           ghost us: seq<Unit>, ghost hasRelocs: bool)
    returns (r: Unpacked)
    requires Enveloped(image, bytes, us, hasRelocs) && |image| < 0x8000_0000 && |stale| == LzssKeys.F
    requires |damaged| == |bytes| && damaged[12..] == bytes[12..] && damaged[..12] != bytes[..12]
    ensures r == Refused
  {
    hide Decoded, Adler32.Adler, Sound, Honest, Enveloped, Code;
    EnvelopeLayout(image, bytes, us, hasRelocs);
    EnvelopeText(image, bytes, us, hasRelocs, stale);
    DamageShows(damaged, bytes, image);
    r := UncompressPrelinkedSlice(damaged, stale);
    DamageRefused(damaged, stale, image, r);
  }

  lemma EnvelopeText(image: seq<byte>, bytes: seq<byte>, us: seq<Unit>, hasRelocs: bool, stale: seq<byte>)
    requires Enveloped(image, bytes, us, hasRelocs) && |image| < 0x8000_0000 && |stale| == LzssKeys.F
    ensures HEADER <= |bytes| < W32 && Decoded(stale, bytes[384..]) == image
  {
    hide Decoded, Adler32.Adler, Code, Parses, BodyBytes, UnitCount, BodySize, CompressedSize, Seen, IsHeader;
    SmallIsWhole(image);
    EmittedFits(image, us, |image|);
    CompressedSizeBound(image);
    CodeDecodes(image, us, stale, |image|);
  }

  /** Another text would have the size of the image, which only the image has among the parts of itself. */
  lemma DamageRefused(damaged: seq<byte>, stale: seq<byte>, image: seq<byte>, r: Unpacked)
    requires |stale| == LzssKeys.F && HEADER <= |damaged| < W32 && Decoded(stale, damaged[384..]) == image
    requires !Sound(damaged, image) && Big32(damaged, 12) == |image| && r == Uncompressed(damaged, stale)
    ensures r == Refused
  {
    hide Decoded, Adler32.Adler, Big32;
    BodyIs(damaged, |damaged| - HEADER);
    SignatureAndType(damaged);
    assert Field(damaged, CHECKSUM) == Big32(damaged, 8) && Field(damaged, SIZE) == Big32(damaged, 12);
    assert image[..|image|] == image;
  }

  lemma DamageShows(damaged: seq<byte>, bytes: seq<byte>, image: seq<byte>)
    requires Sound(bytes, image) && |damaged| == |bytes| && damaged[12..] == bytes[12..]
    requires damaged[..12] != bytes[..12]
    ensures Big32(damaged, 12) == |image| && damaged[384..] == bytes[384..]
    ensures !Sound(damaged, image)
  {
    hide Adler32.Adler;
    assert forall j :: 12 <= j < |bytes| ==> damaged[j] == damaged[12..][j - 12] == bytes[12..][j - 12] == bytes[j];
    assert damaged[..12] == damaged[..4] + damaged[4..8] + damaged[8..12];
    assert bytes[..12] == bytes[..4] + bytes[4..8] + bytes[8..12];
    Spelled(bytes, 8, bytes[8], bytes[9], bytes[10], bytes[11]);
    Spelled(damaged, 8, bytes[8], bytes[9], bytes[10], bytes[11]);
    assert bytes[8..12] == [bytes[8], bytes[9], bytes[10], bytes[11]];
  }

  lemma BodyIs(bytes: seq<byte>, n: nat)
    requires |bytes| == HEADER + n && n < W32
    ensures Body(bytes) == bytes[HEADER..]
  {
  }
}
