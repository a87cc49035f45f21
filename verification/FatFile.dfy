/** Fat files: a header with the place of each slice, then the slices.  Reads and writes may take less than asked. */
module FatFile {
  import opened Values
  import opened Bytes

  const FAT_MAGIC: int := 0xCAFE_BABE
  const HEADER: nat := 8       // the magic number and the number of slices
  const ARCH: nat := 20        // type, subtype, offset, size, alignment

  datatype Arch = Arch(cputype: u32, cpusubtype: u32)

  // ---- the layout ----

  function ArchBytes(a: Arch, offset: u32, size: u32): (b: seq<byte>)
    ensures |b| == ARCH
  {
    Four(a.cputype) + Four(a.cpusubtype) + Four(offset) + Four(size) + Four(0)
  }

  /** Where the i-th slice starts; offsets wrap round at 2^32. */
  function Offset(slices: seq<seq<byte>>, n: nat, i: nat): u32
    requires i <= n && i <= |slices|
  {
    if i == 0 then (HEADER + ARCH * n) % W32 else (Offset(slices, n, i - 1) + |slices[i - 1]|) % W32
  }

  function ArchTable(archs: seq<Arch>, slices: seq<seq<byte>>, k: nat): (b: seq<byte>)
    requires k <= |archs| <= |slices|
    ensures |b| == ARCH * k
  {
    if k == 0 then []
    else
      ArchTable(archs, slices, k - 1)
      + ArchBytes(archs[k - 1], Offset(slices, |archs|, k - 1), |slices[k - 1]| % W32)
  }

  function Joined(slices: seq<seq<byte>>, k: nat): seq<byte>
    requires k <= |slices|
  {
    if k == 0 then [] else Joined(slices, k - 1) + Truncated(slices[k - 1])
  }

  /** A slice as long as its 32-bit length says. */
  function Truncated(s: seq<byte>): seq<byte> { s[..|s| % W32] }

  lemma WholeIs(s: seq<byte>)
    requires |s| < W32
    ensures Truncated(s) == s && |s| % W32 == |s|
  {
  }

  lemma LargeIsTruncated(s: seq<byte>)
    ensures Truncated(s) <= s && (|s| - |Truncated(s)|) % W32 == 0 && |Truncated(s)| < W32
  {
    assert |s| - |s| % W32 == |s| / W32 * W32;
  }

  function HeaderBytes(n: nat): (b: seq<byte>)
    ensures |b| == HEADER
  {
    Four(FAT_MAGIC) + Four(n % W32)
  }

  /** The file for these slices. */
  function Layout(archs: seq<Arch>, slices: seq<seq<byte>>): seq<byte>
    requires |archs| <= |slices|
  {
    HeaderBytes(|archs|) + ArchTable(archs, slices, |archs|) + Joined(slices, |archs|)
  }

  // ---- files ----

  /** An open file.  How much each call transfers, and whether it fails, is given by chunks and faults. */
  class File {
    var bytes: seq<byte>
    var position: nat
    var calls: nat
    const chunks: nat -> nat
    const faults: nat -> bool

    constructor (bytes: seq<byte>, chunks: nat -> nat, faults: nat -> bool)
      ensures this.bytes == bytes && position == 0 && this.chunks == chunks && this.faults == faults
    {
      this.bytes, position, calls := bytes, 0, 0;
      this.chunks, this.faults := chunks, faults;
    }

    /** Writes a part of the data at the end, and says how much; -1 is a failure. */
    method Write(data: seq<byte>) returns (n: int)
      requires data != []
      modifies this
      ensures position == old(position) && calls == old(calls) + 1
      ensures (n == -1 && bytes == old(bytes)) || (0 < n <= |data| && bytes == old(bytes) + data[..n])
      ensures n == -1 <==> faults(old(calls))
    {
      calls := calls + 1;
      if faults(calls - 1) { return -1; }
      n := 1 + chunks(calls - 1) % |data|;
      bytes := bytes + data[..n];
    }

    /** Reads at most so much at the position; nothing at the end of the file. */
    method Read(most: nat) returns (n: int, data: seq<byte>)
      requires most > 0
      modifies this
      ensures bytes == old(bytes) && calls == old(calls) + 1
      ensures n == -1 ==> data == [] && position == old(position)
      ensures n != -1 ==> n == |data| <= most && position == old(position) + n
      ensures n > 0 ==> old(position) + n <= |bytes| && data == bytes[old(position)..old(position) + n]
      ensures n == 0 <==> !faults(old(calls)) && old(position) >= |bytes|
      ensures n == -1 <==> faults(old(calls))
    {
      calls := calls + 1;
      if faults(calls - 1) { return -1, []; }
      if position >= |bytes| { return 0, []; }
      n := 1 + chunks(calls - 1) % (if |bytes| - position < most then |bytes| - position else most);
      data := bytes[position..position + n];
      position := position + n;
    }
  }

  // ---- writing ----

  /** writeToFile: all of the data or a failure, however the writes are split. */
  method WriteToFile(file: File, data: seq<byte>) returns (ok: bool)
    modifies file
    ensures ok ==> file.bytes == old(file.bytes) + data
    ensures !ok ==> exists n :: 0 <= n < |data| && file.bytes == old(file.bytes) + data[..n]
    ensures !ok ==> exists c :: file.faults(c)
  {
    var total := 0;
    while total < |data|
      invariant 0 <= total <= |data| && file.bytes == old(file.bytes) + data[..total]
    {
      ghost var before := file.bytes;
      var written := file.Write(data[total..]);
      if written == -1 { return false; }
      assert data[..total] + data[total..][..written] == data[..total + written];
      total := total + written;
    }
    assert data[..total] == data;
    ok := true;
  }

  lemma WrapTwice(a: int, b: nat)
    ensures (a + b % W32) % W32 == (a + b) % W32
  {
    assert a + b == (a + b % W32) + b / W32 * W32;
  }

  /** The places of the slices, after the header. */
  method WriteTable(file: File, archs: seq<Arch>, slices: seq<seq<byte>>) returns (ok: bool)
    requires |archs| <= |slices|
    modifies file
    ensures ok ==> file.bytes == old(file.bytes) + ArchTable(archs, slices, |archs|)
    ensures !ok ==> exists c :: file.faults(c)
  {
    hide ArchBytes;
    var numArchs := |archs|;
    var fatOffset: u32 := (HEADER + ARCH * numArchs) % W32;
    for i := 0 to numArchs
      invariant fatOffset == Offset(slices, numArchs, i)
      invariant file.bytes == old(file.bytes) + ArchTable(archs, slices, i)
    {
      var sliceLength := |slices[i]| % W32;
      ok := WriteToFile(file, ArchBytes(archs[i], fatOffset, sliceLength));
      if !ok { return; }
      WrapTwice(fatOffset, |slices[i]|);
      fatOffset := (fatOffset + sliceLength) % W32;
    }
    ok := true;
  }

  method WriteBody(file: File, slices: seq<seq<byte>>, numArchs: nat) returns (ok: bool)
    requires numArchs <= |slices|
    modifies file
    ensures ok ==> file.bytes == old(file.bytes) + Joined(slices, numArchs)
    ensures !ok ==> exists c :: file.faults(c)
  {
    for i := 0 to numArchs
      invariant file.bytes == old(file.bytes) + Joined(slices, i)
    {
      ok := WriteToFile(file, Truncated(slices[i]));
      if !ok { return; }
    }
    ok := true;
  }

  /** The header and slices that writeFatFileWithValidation writes to its temporary file. */
  method WriteSlices(file: File, archs: seq<Arch>, slices: seq<seq<byte>>) returns (ok: bool)
    requires |archs| <= |slices| && file.bytes == []
    modifies file
    ensures ok ==> file.bytes == Layout(archs, slices)
    ensures !ok ==> exists c :: file.faults(c)
  {
    hide ArchTable, Joined, HeaderBytes;
    ok := WriteToFile(file, HeaderBytes(|archs|));
    if !ok { return; }
    ok := WriteTable(file, archs, slices);
    if !ok { return; }
    ok := WriteBody(file, slices, |archs|);
  }

  // ---- reading ----

  /** The page size; at least as large as the header needs. */
  const PAGE: nat := 4096

  /** The first page of a file, with the order of its bytes: the page is swapped when the magic number says so. */
  datatype Page = Page(bytes: seq<byte>, big: bool)

  predicate IsPage(p: Page) { |p.bytes| == PAGE }

  function Number(p: Page, at: nat): (x: u32)
    requires IsPage(p) && at + 4 <= PAGE
  {
    if p.big then Big32(p.bytes, at) else Little32(p.bytes, at)
  }

  /** mapAndSwapFatHeaderPage. */
  function HeaderPage(bytes: seq<byte>): (p: Page)
    requires |bytes| >= PAGE
    ensures IsPage(p)
  {
    Page(bytes[..PAGE], Big32(bytes, 0) == FAT_MAGIC)
  }

  function Count(p: Page): u32
    requires IsPage(p)
  {
    Number(p, 4)
  }

  predicate IsFat(p: Page)
    requires IsPage(p)
  {
    Number(p, 0) == FAT_MAGIC
  }

  /** getFirstFatArch: the position of the first entry, or -1. */
  function FirstArch(p: Page): int
    requires IsPage(p)
  {
    if !IsFat(p) || Count(p) == 0 then -1 else HEADER
  }

  /** getNextFatArch. */
  function NextArch(p: Page, arch: nat): int
    requires IsPage(p)
  {
    if !IsFat(p) then -1
    else if (arch + ARCH - HEADER) / ARCH >= Count(p) then -1 else arch + ARCH
  }

  /** Stuck is where readMachOSlice reads on at the end of the file for ever, or past the header page. */
  datatype Outcome<T> = Failed | Stuck | Done(value: T)

  /** readMachOSlice. */
  method ReadSlice(file: File, offset: nat, size: nat) returns (r: Outcome<seq<byte>>)
    modifies file
    ensures file.bytes == old(file.bytes)
    ensures r.Done? ==> offset + size <= |file.bytes| + (if size == 0 then offset else 0)
    ensures r.Done? ==> r.value == if size == 0 then [] else file.bytes[offset..offset + size]
    ensures r.Stuck? ==> size > 0 && offset + size > |file.bytes|
    ensures r.Failed? ==> exists c :: file.faults(c)
  {
    file.position := offset;
    var buf := [];
    while |buf| < size
      invariant |buf| <= size && file.bytes == old(file.bytes) && file.position == offset + |buf|
      invariant buf != [] ==> offset + |buf| <= |file.bytes| && buf == file.bytes[offset..offset + |buf|]
      decreases size - |buf|
    {
      var n, data := file.Read(size - |buf|);
      if n == -1 { return Failed; }
      if n == 0 { return Stuck; }
      buf := buf + data;
    }
    r := Done(buf);
  }

  // ---- what a file holds ----

  function EntryAt(i: nat): nat { HEADER + ARCH * i }

  function Slot(p: Page, i: nat): (u32, u32)
    requires IsPage(p) && EntryAt(i) + ARCH <= PAGE
  {
    (Number(p, EntryAt(i) + 8), Number(p, EntryAt(i) + 12))
  }

  predicate InFile(bytes: seq<byte>, slot: (u32, u32)) { slot.1 == 0 || slot.0 + slot.1 <= |bytes| }

  function Cut(bytes: seq<byte>, slot: (u32, u32)): seq<byte>
    requires InFile(bytes, slot)
  {
    if slot.1 == 0 then [] else bytes[slot.0..slot.0 + slot.1]
  }

  predicate HasSlice(bytes: seq<byte>, slot: (u32, u32), s: seq<byte>) { InFile(bytes, slot) && s == Cut(bytes, slot) }

  /** The entries are in the page, and their slices in the file. */
  predicate InBounds(bytes: seq<byte>) {
    && |bytes| >= PAGE
    && var p := HeaderPage(bytes);
    FirstArch(p) == -1 || (EntryAt(Count(p)) <= PAGE && forall i :: 0 <= i < Count(p) ==> InFile(bytes, Slot(p, i)))
  }

  function ArchAt(p: Page, i: nat): Arch
    requires IsPage(p) && EntryAt(i) + ARCH <= PAGE
  {
    Arch(Number(p, EntryAt(i)), Number(p, EntryAt(i) + 4))
  }

  /** The slices in order; a file that is not fat is a single slice. */
  function SlicesIn(bytes: seq<byte>): seq<seq<byte>>
    requires InBounds(bytes)
  {
    var p := HeaderPage(bytes);
    if FirstArch(p) == -1 then [bytes] else seq(Count(p), i requires 0 <= i < Count(p) => Cut(bytes, Slot(p, i)))
  }

  function ArchsIn(p: Page): seq<Arch>
    requires IsPage(p) && (FirstArch(p) == -1 || EntryAt(Count(p)) <= PAGE)
  {
    if FirstArch(p) == -1 then [] else seq(Count(p), i requires 0 <= i < Count(p) => ArchAt(p, i))
  }

  lemma NextArchIs(p: Page, i: nat)
    requires IsPage(p) && IsFat(p)
    ensures NextArch(p, EntryAt(i)) == if i + 1 >= Count(p) then -1 else EntryAt(i + 1)
  {
    assert EntryAt(i) + ARCH - HEADER == (i + 1) * ARCH;
    assert (EntryAt(i) + ARCH - HEADER) / ARCH == i + 1;
  }

  lemma WholeFile(bytes: seq<byte>)
    requires |bytes| >= PAGE
    ensures bytes[0..0 + |bytes|] == bytes
    ensures FirstArch(HeaderPage(bytes)) == -1 ==> InBounds(bytes) && SlicesIn(bytes) == [bytes]
  {
  }

  lemma CutIs(bytes: seq<byte>, slot: (u32, u32))
    requires InFile(bytes, slot)
    ensures Cut(bytes, slot) == if slot.1 == 0 then [] else bytes[slot.0..slot.0 + slot.1]
  {
  }

  lemma OutOfBounds(bytes: seq<byte>, i: nat)
    requires |bytes| >= PAGE && FirstArch(HeaderPage(bytes)) != -1 && i < Count(HeaderPage(bytes))
    ensures EntryAt(i) + ARCH > PAGE || !InFile(bytes, Slot(HeaderPage(bytes), i)) ==> !InBounds(bytes)
  {
    EntriesGrow(i, Count(HeaderPage(bytes)));
  }

  lemma SlicesAre(bytes: seq<byte>, slices: seq<seq<byte>>)
    requires |bytes| >= PAGE && FirstArch(HeaderPage(bytes)) != -1
    requires |slices| == Count(HeaderPage(bytes)) && EntryAt(|slices|) <= PAGE
    requires forall i :: 0 <= i < |slices| ==> HasSlice(bytes, Slot(HeaderPage(bytes), i), slices[i])
    ensures InBounds(bytes) && SlicesIn(bytes) == slices
  {
    hide Cut, Number;
    var p := HeaderPage(bytes);
    forall i | 0 <= i < |slices| ensures InFile(bytes, Slot(p, i)) && Cut(bytes, Slot(p, i)) == slices[i] {
      assert HasSlice(bytes, Slot(p, i), slices[i]);
    }
    assert InBounds(bytes);
    assert |SlicesIn(bytes)| == |slices|;
  }

  /** The slices of readMachOSlicesWith_fd. */
  method ReadSlices(file: File) returns (r: Outcome<seq<seq<byte>>>)
    modifies file
    ensures file.bytes == old(file.bytes)
    ensures r.Done? ==> InBounds(file.bytes) && r.value == SlicesIn(file.bytes)
    ensures r.Stuck? ==> !InBounds(file.bytes)
    ensures r.Failed? ==> |file.bytes| < PAGE || exists c :: file.faults(c)
  {
    hide Cut, NextArch, Number, SlicesIn, InBounds, Slot;
    var bytes := file.bytes;
    if |bytes| < PAGE { return Failed; }
    WholeFile(bytes);
    var page := HeaderPage(bytes);
    var arch := FirstArch(page);
    if arch == -1 {
      var whole := ReadSlice(file, 0, |bytes|);
      return match whole case Failed => Failed case Stuck => Stuck case Done(s) => Done([s]);
    }
    var slices: seq<seq<byte>> := [];
    while arch != -1
      invariant file.bytes == bytes && |slices| <= Count(page) && FirstArch(page) != -1
      invariant arch == if |slices| == Count(page) then -1 else EntryAt(|slices|)
      invariant EntryAt(|slices|) <= PAGE && forall i :: 0 <= i < |slices| ==> HasSlice(bytes, Slot(page, i), slices[i])
      decreases Count(page) - |slices|
    {
      OutOfBounds(bytes, |slices|);
      if arch + ARCH > PAGE { return Stuck; }
      NextArchIs(page, |slices|);
      var slot := Slot(page, |slices|);
      var s := ReadSlice(file, slot.0, slot.1);
      if s.Failed? { return Failed; }
      if s.Stuck? { return Stuck; }
      CutIs(bytes, slot);
      slices := slices + [s.value];
      arch := NextArch(page, arch);
    }
    SlicesAre(bytes, slices);
    r := Done(slices);
  }

  /** The architectures of readFatFileArchsWithHeader; none for a file that is not fat. */
  method ReadArchs(page: Page) returns (r: Outcome<seq<Arch>>)
    requires IsPage(page)
    ensures r.Done? <==> FirstArch(page) == -1 || EntryAt(Count(page)) <= PAGE
    ensures r.Done? ==> r.value == ArchsIn(page)
  {
    var arch := FirstArch(page);
    var archs: seq<Arch> := [];
    while arch != -1
      invariant FirstArch(page) == -1 ==> arch == -1 && archs == []
      invariant FirstArch(page) != -1 ==>
        |archs| <= Count(page) && arch == (if |archs| == Count(page) then -1 else EntryAt(|archs|))
      invariant EntryAt(|archs|) <= PAGE && forall i :: 0 <= i < |archs| ==> archs[i] == ArchAt(page, i)
      decreases Count(page) - |archs|
    {
      if arch + ARCH > PAGE { return Stuck; }
      NextArchIs(page, |archs|);
      archs := archs + [ArchAt(page, |archs|)];
      arch := NextArch(page, arch);
    }
    r := Done(archs);
  }

  // ---- reading what was written ----

  lemma Big32At(a: seq<byte>, b: seq<byte>, x: u32, c: seq<byte>)
    requires b == Four(x)
    ensures Big32(a + b + c, |a|) == x
  {
    var s := a + b + c;
    assert forall j :: 0 <= j < 4 ==> s[|a| + j] == b[j];
  }

  lemma PartOfPart(a: seq<byte>, b: seq<byte>, c: seq<byte>, i: nat, j: nat)
    requires i <= j <= |b|
    ensures |a| + j <= |a + b + c| && (a + b + c)[|a| + i..|a| + j] == b[i..j]
  {
    var s := a + b + c;
    forall k | i <= k < j ensures s[|a| + k] == b[k] {}
  }

  lemma TailPart(a: seq<byte>, b: seq<byte>, i: nat, j: nat)
    requires i <= j <= |b|
    ensures |a| + j <= |a + b| && (a + b)[|a| + i..|a| + j] == b[i..j]
  {
  }

  predicate AllShort(slices: seq<seq<byte>>) { forall j :: 0 <= j < |slices| ==> |slices[j]| < W32 }

  lemma JoinedNext(slices: seq<seq<byte>>, k: nat)
    requires k < |slices| && AllShort(slices)
    ensures Joined(slices, k + 1) == Joined(slices, k) + slices[k]
  {
    WholeIs(slices[k]);
  }

  lemma {:induction false} JoinedPart(slices: seq<seq<byte>>, k: nat, i: nat)
    requires i < k <= |slices| && AllShort(slices)
    ensures |Joined(slices, i)| + |slices[i]| <= |Joined(slices, k)|
    ensures Joined(slices, k)[|Joined(slices, i)|..|Joined(slices, i)| + |slices[i]|] == slices[i]
    decreases k
  {
    hide Truncated;
    JoinedNext(slices, k - 1);
    if i < k - 1 {
      JoinedPart(slices, k - 1, i);
    }
  }

  lemma {:induction false} TablePart(archs: seq<Arch>, slices: seq<seq<byte>>, k: nat, i: nat)
    requires i < k <= |archs| <= |slices|
    ensures ARCH * i + ARCH <= |ArchTable(archs, slices, k)|
    ensures ArchTable(archs, slices, k)[ARCH * i..ARCH * i + ARCH]
      == ArchBytes(archs[i], Offset(slices, |archs|, i), |slices[i]| % W32)
    decreases k
  {
    hide ArchBytes, Offset;
    if i < k - 1 {
      TablePart(archs, slices, k - 1, i);
      var t := ArchTable(archs, slices, k - 1);
      assert ARCH * i + ARCH <= |t|;
    }
  }

  /** Slices are contiguous after the header. */
  lemma {:induction false} OffsetIs(slices: seq<seq<byte>>, n: nat, i: nat)
    requires i <= n <= |slices| && EntryAt(n) + |Joined(slices, n)| < W32 && AllShort(slices)
    ensures |Joined(slices, i)| <= |Joined(slices, n)|
    ensures Offset(slices, n, i) == EntryAt(n) + |Joined(slices, i)|
    decreases i
  {
    hide Truncated, Joined;
    if i < n { JoinedPart(slices, n, i); }
    if i > 0 {
      OffsetIs(slices, n, i - 1);
      JoinedNext(slices, i - 1);
      OffsetNext(slices, n, i - 1);
    } else {
      FirstOffset(slices, n);
      NothingJoined(slices);
    }
  }

  lemma NothingJoined(slices: seq<seq<byte>>)
    ensures Joined(slices, 0) == []
  {
  }

  lemma FirstOffset(slices: seq<seq<byte>>, n: nat)
    requires EntryAt(n) < W32
    ensures Offset(slices, n, 0) == EntryAt(n)
  {
  }

  lemma OffsetNext(slices: seq<seq<byte>>, n: nat, i: nat)
    requires i < n && i < |slices| && Offset(slices, n, i) + |slices[i]| < W32
    ensures Offset(slices, n, i + 1) == Offset(slices, n, i) + |slices[i]|
  {
  }

  /** Slices and sizes for which the file is well formed. */
  predicate Writable(archs: seq<Arch>, slices: seq<seq<byte>>) {
    && 0 < |archs| == |slices| && EntryAt(|archs|) <= PAGE && AllShort(slices)
    && EntryAt(|archs|) + |Joined(slices, |slices|)| < W32
    && |Layout(archs, slices)| >= PAGE
  }

  /** Reading back gives the slices and architectures that were written, in order. */
  lemma FatRoundTrip(archs: seq<Arch>, slices: seq<seq<byte>>)
    requires Writable(archs, slices)
    ensures var bytes := Layout(archs, slices);
      InBounds(bytes) && SlicesIn(bytes) == slices && ArchsIn(HeaderPage(bytes)) == archs
  {
    var bytes := Layout(archs, slices);
    var p := HeaderPage(bytes);
    HeaderReadBack(archs, slices);
    forall i | 0 <= i < |archs|
      ensures Slot(p, i) == (Offset(slices, |archs|, i), |slices[i]|) && ArchAt(p, i) == archs[i]
      ensures InFile(bytes, Slot(p, i)) && Cut(bytes, Slot(p, i)) == slices[i]
    {
      EntryReadBack(archs, slices, i);
      SliceReadBack(archs, slices, i);
    }
    assert SlicesIn(bytes) == slices;
    assert ArchsIn(p) == archs;
  }

  lemma HeaderReadBack(archs: seq<Arch>, slices: seq<seq<byte>>)
    requires Writable(archs, slices)
    ensures var p := HeaderPage(Layout(archs, slices)); p.big && FirstArch(p) == HEADER && Count(p) == |archs|
  {
    hide Four, Big32, ArchTable, Joined;
    var bytes := Layout(archs, slices);
    var rest := ArchTable(archs, slices, |archs|) + Joined(slices, |archs|);
    assert bytes == [] + Four(FAT_MAGIC) + (Four(|archs|) + rest);
    Big32At([], Four(FAT_MAGIC), FAT_MAGIC, Four(|archs|) + rest);
    assert bytes == Four(FAT_MAGIC) + Four(|archs|) + rest;
    Big32At(Four(FAT_MAGIC), Four(|archs|), |archs|, rest);
    SamePage(bytes, 0);
    SamePage(bytes, 4);
  }

  lemma SamePage(bytes: seq<byte>, at: nat)
    requires |bytes| >= PAGE && at + 4 <= PAGE
    ensures Big32(bytes[..PAGE], at) == Big32(bytes, at)
  {
  }

  lemma SamePart(b: seq<byte>, at: nat, part: seq<byte>, j: nat)
    requires at + |part| <= |b| && b[at..at + |part|] == part && j + 4 <= |part|
    ensures Big32(b, at + j) == Big32(part, j)
  {
    var cut := b[at..at + |part|];
    assert cut[j] == b[at + j] && cut[j + 1] == b[at + j + 1] && cut[j + 2] == b[at + j + 2]
      && cut[j + 3] == b[at + j + 3];
  }

  lemma ArchBytesIs(a: Arch, offset: u32, size: u32)
    ensures var b := ArchBytes(a, offset, size);
      Big32(b, 0) == a.cputype && Big32(b, 4) == a.cpusubtype && Big32(b, 8) == offset && Big32(b, 12) == size
    ensures Big32(ArchBytes(a, offset, size), 16) == 0
  {
    assert Big32(Four(0), 0) == 0;
    assert Big32(Four(a.cputype), 0) == a.cputype && Big32(Four(a.cpusubtype), 0) == a.cpusubtype;
    assert Big32(Four(offset), 0) == offset && Big32(Four(size), 0) == size;
  }

  lemma EntryPart(archs: seq<Arch>, slices: seq<seq<byte>>, i: nat)
    requires Writable(archs, slices) && i < |archs|
    ensures EntryAt(i) + ARCH <= PAGE
    ensures var bytes := Layout(archs, slices);
      bytes[EntryAt(i)..EntryAt(i) + ARCH] == ArchBytes(archs[i], Offset(slices, |archs|, i), |slices[i]|)
  {
    hide ArchBytes, HeaderBytes, ArchTable, Joined, Offset, Layout, Truncated;
    WholeIs(slices[i]);
    TablePart(archs, slices, |archs|, i);
    EntriesGrow(i, |archs|);
    LayoutParts(archs, slices);
    var table := ArchTable(archs, slices, |archs|);
    PartOfPart(HeaderBytes(|archs|), table, Joined(slices, |archs|), ARCH * i, ARCH * i + ARCH);
  }

  lemma EntriesGrow(i: nat, n: nat)
    requires i < n
    ensures EntryAt(i) + ARCH <= EntryAt(n)
  {
  }

  lemma LayoutParts(archs: seq<Arch>, slices: seq<seq<byte>>)
    requires |archs| <= |slices|
    ensures Layout(archs, slices) == HeaderBytes(|archs|) + ArchTable(archs, slices, |archs|) + Joined(slices, |archs|)
  {
  }

  lemma NumberAt(bytes: seq<byte>, i: nat, part: seq<byte>, j: nat)
    requires |bytes| >= PAGE && EntryAt(i) + ARCH <= PAGE && bytes[EntryAt(i)..EntryAt(i) + ARCH] == part
      && j + 4 <= ARCH
    requires HeaderPage(bytes).big
    ensures Number(HeaderPage(bytes), EntryAt(i) + j) == Big32(part, j)
  {
    hide Big32;
    SamePart(bytes, EntryAt(i), part, j);
    SamePage(bytes, EntryAt(i) + j);
  }

  lemma ShortIs(slices: seq<seq<byte>>, i: nat)
    requires AllShort(slices) && i < |slices|
    ensures |slices[i]| < W32
  {
  }

  lemma EntryReadBack(archs: seq<Arch>, slices: seq<seq<byte>>, i: nat)
    requires Writable(archs, slices) && i < |archs| && HeaderPage(Layout(archs, slices)).big
    ensures var p := HeaderPage(Layout(archs, slices));
      && EntryAt(i) + ARCH <= PAGE
      && Slot(p, i) == (Offset(slices, |archs|, i), |slices[i]|) && ArchAt(p, i) == archs[i]
  {
    hide ArchBytes, Big32, Layout, HeaderPage, Number, Offset, Joined, ArchTable, AllShort;
    assert |slices[i]| < W32 by { ShortIs(slices, i); }
    var bytes := Layout(archs, slices);
    var part := ArchBytes(archs[i], Offset(slices, |archs|, i), |slices[i]|);
    EntryPart(archs, slices, i);
    ArchBytesIs(archs[i], Offset(slices, |archs|, i), |slices[i]|);
    NumberAt(bytes, i, part, 0);
    NumberAt(bytes, i, part, 4);
    NumberAt(bytes, i, part, 8);
    NumberAt(bytes, i, part, 12);
  }

  lemma CutFound(bytes: seq<byte>, at: u32, s: seq<byte>)
    requires at + |s| <= |bytes| && |s| < W32 && bytes[at..at + |s|] == s
    ensures InFile(bytes, (at, |s|)) && Cut(bytes, (at, |s|)) == s
  {
  }

  lemma SliceReadBack(archs: seq<Arch>, slices: seq<seq<byte>>, i: nat)
    requires Writable(archs, slices) && i < |archs|
    ensures var slot := (Offset(slices, |archs|, i), |slices[i]|);
      && InFile(Layout(archs, slices), slot) && Cut(Layout(archs, slices), slot) == slices[i]
      && slot.0 + slot.1 <= |Layout(archs, slices)|
  {
    hide HeaderBytes, ArchTable, Joined, Offset, Cut, InFile, Layout;
    LayoutParts(archs, slices);
    var head := HeaderBytes(|archs|) + ArchTable(archs, slices, |archs|);
    var body := Joined(slices, |archs|);
    OffsetIs(slices, |archs|, i);
    JoinedPart(slices, |archs|, i);
    var at := |Joined(slices, i)|;
    TailPart(head, body, at, at + |slices[i]|);
    CutFound(Layout(archs, slices), Offset(slices, |archs|, i), slices[i]);
  }

  /** Slices do not overlap: they follow the header and each other. */
  lemma SlicesDisjoint(archs: seq<Arch>, slices: seq<seq<byte>>, i: nat, j: nat)
    requires Writable(archs, slices) && i < j < |slices|
    ensures EntryAt(|archs|) <= Offset(slices, |archs|, i)
    ensures Offset(slices, |archs|, i) + |slices[i]| <= Offset(slices, |archs|, j)
    ensures j == i + 1 ==> Offset(slices, |archs|, i) + |slices[i]| == Offset(slices, |archs|, j)
    ensures Offset(slices, |archs|, j) + |slices[j]| <= |Layout(archs, slices)|
  {
    hide Joined, Offset;
    OffsetIs(slices, |archs|, i);
    OffsetIs(slices, |archs|, j);
    JoinedPart(slices, j, i);
    JoinedPart(slices, |archs|, j);
    if j == i + 1 { JoinedNext(slices, i); }
  }

  // ---- the layout in numbers ----

  /** Four bytes of magic, the number of slices, and for each 20 bytes: type, subtype, offset, size and a zero. */
  lemma LayoutInNumbers(archs: seq<Arch>, slices: seq<seq<byte>>, i: nat)
    requires Writable(archs, slices) && i < |archs|
    ensures var bytes := Layout(archs, slices);
      && |bytes| >= 8 + 20 * (i + 1) && bytes[..4] == [0xCA, 0xFE, 0xBA, 0xBE] && Big32(bytes, 4) == |archs|
      && Big32(bytes, 8 + 20 * i) == archs[i].cputype && Big32(bytes, 12 + 20 * i) == archs[i].cpusubtype
      && Big32(bytes, 20 + 20 * i) == |slices[i]| && Big32(bytes, 24 + 20 * i) == 0
    ensures var bytes := Layout(archs, slices);
      var offset := Big32(bytes, 16 + 20 * i);
      && (i == 0 ==> offset == 8 + 20 * |archs|)
      && offset + |slices[i]| <= |bytes| && bytes[offset..offset + |slices[i]|] == slices[i]
  {
    hide Layout, ArchBytes, Big32, Cut, Offset, ArchTable, Joined;
    var bytes := Layout(archs, slices);
    HeaderReadBack(archs, slices);
    EntryPart(archs, slices, i);
    var part := ArchBytes(archs[i], Offset(slices, |archs|, i), |slices[i]|);
    PartInNumbers(bytes, 8 + 20 * i, archs[i], Offset(slices, |archs|, i), |slices[i]|);
    MagicBytes(bytes);
    SamePage(bytes, 0);
    SamePage(bytes, 4);
    FirstOffset(slices, |archs|);
    SliceReadBack(archs, slices, i);
    CutInNumbers(bytes, Offset(slices, |archs|, i), |slices[i]|);
  }

  lemma CutInNumbers(bytes: seq<byte>, at: u32, n: u32)
    requires InFile(bytes, (at, n)) && at <= |bytes|
    ensures at + n <= |bytes| && Cut(bytes, (at, n)) == bytes[at..at + n]
  {
  }

  lemma MagicBytes(b: seq<byte>)
    requires |b| >= 4
    ensures Big32(b, 0) == FAT_MAGIC <==> b[..4] == [0xCA, 0xFE, 0xBA, 0xBE]
    ensures Little32(b, 0) == FAT_MAGIC <==> b[..4] == [0xBE, 0xBA, 0xFE, 0xCA]
  {
  }

  lemma PartInNumbers(b: seq<byte>, at: nat, a: Arch, offset: u32, size: u32)
    requires at + ARCH <= |b| && b[at..at + ARCH] == ArchBytes(a, offset, size)
    ensures Big32(b, at) == a.cputype && Big32(b, at + 4) == a.cpusubtype && Big32(b, at + 8) == offset
    ensures Big32(b, at + 12) == size && Big32(b, at + 16) == 0
  {
    hide Big32, ArchBytes, Four;
    var part := ArchBytes(a, offset, size);
    ArchBytesIs(a, offset, size);
    SamePart(b, at, part, 0);
    SamePart(b, at, part, 4);
    SamePart(b, at, part, 8);
    SamePart(b, at, part, 12);
    SamePart(b, at, part, 16);
  }

  /** A file as a machine of the other byte order writes it: the words of the header reversed. */
  predicate Swapped(b: seq<byte>, b': seq<byte>, header: nat) {
    && header % 4 == 0 && header <= |b| == |b'|
    && (forall w {:trigger SwappedAt(b, b', w)} :: 0 <= w < header / 4 ==> SwappedAt(b, b', w))
    && forall j :: header <= j < |b| ==> b'[j] == b[j]
  }

  predicate SwappedAt(b: seq<byte>, b': seq<byte>, w: nat)
    requires 4 * w + 4 <= |b| == |b'|
  {
    b'[4 * w..4 * w + 4] == [b[4 * w + 3], b[4 * w + 2], b[4 * w + 1], b[4 * w]]
  }

  lemma SwappedNumber(b: seq<byte>, b': seq<byte>, header: nat, w: nat)
    requires Swapped(b, b', header) && 4 * w + 4 <= header
    ensures |b'| == |b| && Little32(b', 4 * w) == Big32(b, 4 * w)
  {
    assert SwappedAt(b, b', w);
    var word := b'[4 * w..4 * w + 4];
    assert word[0] == b'[4 * w] && word[1] == b'[4 * w + 1] && word[2] == b'[4 * w + 2] && word[3] == b'[4 * w + 3];
  }

  lemma SamePageLittle(bytes: seq<byte>, at: nat)
    requires |bytes| >= PAGE && at + 4 <= PAGE
    ensures Little32(bytes[..PAGE], at) == Little32(bytes, at)
  {
  }

  lemma SwappedPage(b: seq<byte>, b': seq<byte>, header: nat, w: nat)
    requires Swapped(b, b', header) && 4 * w + 4 <= header <= PAGE <= |b| && HeaderPage(b).big && !HeaderPage(b').big
    ensures Number(HeaderPage(b'), 4 * w) == Number(HeaderPage(b), 4 * w)
  {
    hide Big32, Little32, Swapped;
    SwappedNumber(b, b', header, w);
    SamePage(b, 4 * w);
    SamePageLittle(b', 4 * w);
  }

  /** Such a file is read as the other. */
  lemma SwappedReadsSame(archs: seq<Arch>, slices: seq<seq<byte>>, bytes: seq<byte>)
    requires Writable(archs, slices) && Swapped(Layout(archs, slices), bytes, 8 + 20 * |archs|)
    ensures InBounds(bytes) && SlicesIn(bytes) == slices && ArchsIn(HeaderPage(bytes)) == archs
  {
    hide Layout, Big32, Cut, Offset, Joined, AllShort, Swapped, Number, SlicesIn;
    var b, n := Layout(archs, slices), |archs|;
    HeaderReadBack(archs, slices);
    SwappedMagic(b, bytes, 8 + 20 * n);
    var p, p' := HeaderPage(b), HeaderPage(bytes);
    SwappedPage(b, bytes, 8 + 20 * n, 0);
    SwappedPage(b, bytes, 8 + 20 * n, 1);
    assert Count(p') == n && FirstArch(p') == HEADER;
    forall i | 0 <= i < n
      ensures EntryAt(i) + ARCH <= PAGE && HasSlice(bytes, Slot(p', i), slices[i]) && ArchAt(p', i) == archs[i]
    {
      SwappedEntry(archs, slices, bytes, i);
    }
    SlicesAre(bytes, slices);
    assert ArchsIn(p') == archs;
  }

  lemma SwappedMagic(b: seq<byte>, b': seq<byte>, header: nat)
    requires Swapped(b, b', header) && 4 <= header <= PAGE <= |b| && HeaderPage(b).big
    ensures |b'| == |b| && !HeaderPage(b').big
  {
    MagicBytes(b);
    assert SwappedAt(b, b', 0);
    assert b'[..4] == b'[4 * 0..4 * 0 + 4];
    MagicBytes(b');
  }

  lemma SwappedEntry(archs: seq<Arch>, slices: seq<seq<byte>>, bytes: seq<byte>, i: nat)
    requires Writable(archs, slices) && Swapped(Layout(archs, slices), bytes, 8 + 20 * |archs|) && i < |archs|
    requires HeaderPage(Layout(archs, slices)).big && !HeaderPage(bytes).big
    ensures EntryAt(i) + ARCH <= PAGE && HasSlice(bytes, Slot(HeaderPage(bytes), i), slices[i])
    ensures ArchAt(HeaderPage(bytes), i) == archs[i]
  {
    hide Layout, Big32, Offset, Joined, AllShort, Number;
    var b, header := Layout(archs, slices), 8 + 20 * |archs|;
    EntryReadBack(archs, slices, i);
    PastHeader(archs, slices, i);
    SwappedWords(b, bytes, header, i, |archs|);
    SliceReadBack(archs, slices, i);
    SwappedCut(b, bytes, header, (Offset(slices, |archs|, i), |slices[i]|));
  }

  lemma PastHeader(archs: seq<Arch>, slices: seq<seq<byte>>, i: nat)
    requires Writable(archs, slices) && i < |archs|
    ensures 8 + 20 * |archs| <= Offset(slices, |archs|, i) && 8 + 20 * |archs| <= PAGE <= |Layout(archs, slices)|
  {
    hide Layout, Offset, Joined;
    OffsetIs(slices, |archs|, i);
  }

  lemma SwappedWords(b: seq<byte>, b': seq<byte>, header: nat, i: nat, n: nat)
    requires Swapped(b, b', header) && header == 8 + 20 * n <= PAGE <= |b| && i < n
    requires HeaderPage(b).big && !HeaderPage(b').big
    ensures EntryAt(i) + ARCH <= PAGE
    ensures Slot(HeaderPage(b'), i) == Slot(HeaderPage(b), i) && ArchAt(HeaderPage(b'), i) == ArchAt(HeaderPage(b), i)
  {
    hide Swapped, Number;
    var w := 2 + 5 * i;
    SwappedPage(b, b', header, w);
    SwappedPage(b, b', header, w + 1);
    SwappedPage(b, b', header, w + 2);
    SwappedPage(b, b', header, w + 3);
  }

  lemma SwappedCut(b: seq<byte>, b': seq<byte>, header: nat, slot: (u32, u32))
    requires Swapped(b, b', header) && InFile(b, slot) && header <= slot.0
    ensures InFile(b', slot) && Cut(b', slot) == Cut(b, slot)
  {
  }

  /** A file that starts with neither form of the magic number is one slice, without architectures. */
  lemma ThinFile(bytes: seq<byte>)
    requires |bytes| >= PAGE && bytes[..4] != [0xCA, 0xFE, 0xBA, 0xBE] && bytes[..4] != [0xBE, 0xBA, 0xFE, 0xCA]
    ensures InBounds(bytes) && SlicesIn(bytes) == [bytes] && ArchsIn(HeaderPage(bytes)) == []
  {
    hide Big32, Little32;
    MagicBytes(bytes);
    SamePage(bytes, 0);
    SamePageLittle(bytes, 0);
    WholeFile(bytes);
  }
}
