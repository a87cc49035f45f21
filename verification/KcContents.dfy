/** Extraction preserves what a kext contains. */
module KcContents {
  import opened Values
  import Bytes
  import opened KcModel
  import opened KcMap
  import opened KcRebase
  import opened KcExtract

  ghost predicate AllFine(k: Image, p: Place, cs: seq<LoadCommand>) { forall c :: c in cs ==> Fate(k, p, c) == Done }

  lemma {:induction false} StartsGrow(cs: seq<LoadCommand>, i: nat, j: nat)
    requires i <= j <= |cs|
    ensures Start(cs, i) <= Start(cs, j)
    ensures i < j ==> Start(cs, i) + Size(cs[i]) <= Start(cs, j)
    decreases j
  {
    if i < j { StartsGrow(cs, i, j - 1); }
  }

  /** Segments occupy consecutive intervals, in the order of the commands: each position belongs to exactly one. */
  lemma {:induction false} Tiled(cs: seq<LoadCommand>, n: nat, x: nat) returns (i: nat)
    requires n <= |cs| && x < Start(cs, n)
    ensures i < n && Start(cs, i) <= x < Start(cs, i) + Size(cs[i])
    ensures forall j :: 0 <= j < |cs| && Start(cs, j) <= x < Start(cs, j) + Size(cs[j]) ==> j == i
    decreases n
  {
    hide Size;
    if x < Start(cs, n - 1) { i := Tiled(cs, n - 1, x); } else { i := n - 1; }
    hide Start;
    forall j | 0 <= j < |cs| && Start(cs, j) <= x < Start(cs, j) + Size(cs[j]) ensures j == i {
      if j < i { StartsGrow(cs, j, i); } else if i < j { StartsGrow(cs, i, j); }
    }
  }

  lemma {:induction false} CopiedAt(k: Image, p: Place, cs: seq<LoadCommand>, i: nat, d: nat)
    requires AllFine(k, p, cs) && i < |cs| && d < Size(cs[i])
    ensures Start(cs, i) + d < |Copied(k, p, cs)| && Copied(k, p, cs)[Start(cs, i) + d] == SegmentBytes(k, p, cs[i])[d]
    decreases |cs|
  {
    hide SegmentBytes, Fate;
    var front := cs[..|cs| - 1];
    StartOfFront(cs);
    assert AllFine(k, p, front) && Copied(k, p, cs) == Copied(k, p, front) + SegmentBytes(k, p, cs[|cs| - 1]);
    if i < |front| {
      StartPrefix(cs, |front|, i);
      CopiedAt(k, p, front, i, d);
    } else {
      StartPrefix(cs, |front|, i);
    }
  }

  /** A file made of header bytes written over the segments. */
  ghost predicate Extracted(k: Image, p: Place, cs: seq<LoadCommand>, header: seq<Bytes.byte>, file: seq<Bytes.byte>) {
    AllFine(k, p, cs) && file == Written(Copied(k, p, cs), 0, header)
  }

  /** Past the header, a segment's bytes are the bytes it has in the collection. */
  lemma SegmentPreserved(k: Image, p: Place, cs: seq<LoadCommand>, header: seq<Bytes.byte>, file: seq<Bytes.byte>,
                         i: nat, d: nat)
    requires Extracted(k, p, cs, header, file) && i < |cs| && d < Size(cs[i]) && |header| <= Start(cs, i) + d
    ensures Start(cs, i) + d < |file|
    ensures var offset := SourceOffset(k, p, cs[i].vmaddr);
      offset.Some? && offset.value + d < |k.bytes| && file[Start(cs, i) + d] == k.bytes[offset.value + d]
  {
    CopiedAt(k, p, cs, i, d);
    assert Fate(k, p, cs[i]) == Done;
  }

  /** x is a byte of the i-th segment, at its distance from the segment's start. */
  ghost predicate FromSegment(k: Image, p: Place, cs: seq<LoadCommand>, file: seq<Bytes.byte>, x: nat, i: nat)
    requires x < |file|
  {
    && i < |cs| && Start(cs, i) <= x < Start(cs, i) + Size(cs[i])
    && var offset := SourceOffset(k, p, cs[i].vmaddr);
    offset.Some? && offset.value + (x - Start(cs, i)) < |k.bytes|
      && file[x] == k.bytes[offset.value + (x - Start(cs, i))]
  }

  /** Every byte of the file is a byte of the header or of exactly one segment. */
  lemma NothingElse(k: Image, p: Place, cs: seq<LoadCommand>, header: seq<Bytes.byte>, file: seq<Bytes.byte>, x: nat)
    returns (i: nat)
    requires Extracted(k, p, cs, header, file) && x < |file|
    ensures if x < |header| then file[x] == header[x] else FromSegment(k, p, cs, file, x, i)
  {
    hide Copied, SourceOffset, Fate, Start, SegmentBytes;
    i := 0;
    if x >= |header| {
      i := Tiled(cs, |cs|, x);
      SegmentPreserved(k, p, cs, header, file, i, x - Start(cs, i));
    }
  }

  // ---- offsets in the commands ----

  predicate Small(cs: seq<LoadCommand>) { Start(cs, |cs|) < W32 }

  /** A section that starts in its segment, or right after it. */
  predicate InSegment(c: LoadCommand, s: Section) {
    c.Segment? && c.filesize > 0 && s.offset > 0 && c.fileoff <= s.offset <= c.fileoff + c.filesize
  }

  lemma SegmentRewritten(cs: seq<LoadCommand>, i: nat)
    requires i < |cs| && cs[i].Segment?
    ensures var r := Rewritten(cs, i);
      && r.Segment? && |r.sections| == |cs[i].sections|
      && r == cs[i].(fileoff := if cs[i].filesize > 0 then Start(cs, i) % W64 else 0, sections := r.sections)
      && forall j :: 0 <= j < |cs[i].sections| ==>
        var s := cs[i].sections[j];
        r.sections[j] == (if cs[i].filesize > 0 then MovedSection(s, cs[i].fileoff, Start(cs, i)) else s).(
          reloff := Adjusted(s.reloff, LinkeditWas(cs), LinkeditNow(cs)))
  {
    LastDysymtabIs(cs);
  }

  lemma {:induction false} LastDysymtabIs(cs: seq<LoadCommand>)
    ensures LastDysymtab(cs) >= 0 ==> cs[LastDysymtab(cs)].Dysymtab?
    ensures forall j :: LastDysymtab(cs) < j < |cs| ==> !cs[j].Dysymtab?
    decreases |cs|
  {
    if cs != [] {
      var front := cs[..|cs| - 1];
      LastDysymtabIs(front);
      assert forall j :: 0 <= j < |front| ==> front[j] == cs[j];
    }
  }

  /** What becomes of the distance of a section with an offset from its segment.  In a segment with file bytes it is
      kept modulo 2^32, and exactly so if that leaves a 32-bit offset; an empty segment goes to 0 and leaves its
      sections behind, so there it is kept only if the segment was at 0 already. */
  lemma SectionKeepsDistance(cs: seq<LoadCommand>, i: nat, j: nat)
    requires i < |cs| && cs[i].Segment? && j < |cs[i].sections| && cs[i].sections[j].offset > 0
    ensures var r := Rewritten(cs, i); r.Segment? && j < |r.sections|
    ensures var c, r := cs[i], Rewritten(cs, i);
      var was, now := c.sections[j].offset - c.fileoff, r.sections[j].offset - r.fileoff;
      && (now % W32 == was % W32 <==> c.filesize > 0 || c.fileoff % W32 == 0)
      && (now == was <==> if c.filesize > 0 then 0 <= Start(cs, i) % W64 + was < W32 else c.fileoff == 0)
  {
    hide Rewritten, MovedSection, Start, Relinked;
    SegmentRewritten(cs, i);
    var c, r := cs[i], Rewritten(cs, i);
    var s := c.sections[j];
    if c.filesize > 0 {
      MovedSectionIs(s, c.fileoff, Start(cs, i));
      assert r.sections[j].offset == MovedSection(s, c.fileoff, Start(cs, i)).offset;
    } else {
      StaysBehind(s.offset, c.fileoff);
    }
  }

  /** It is kept in particular for a section in its segment when the file is smaller than 2^32 bytes. */
  lemma SectionInSegment(cs: seq<LoadCommand>, i: nat, j: nat)
    requires i < |cs| && cs[i].Segment? && j < |cs[i].sections| && InSegment(cs[i], cs[i].sections[j]) && Small(cs)
    ensures var r, s := Rewritten(cs, i), cs[i].sections[j];
      && r.Segment? && j < |r.sections| && r.fileoff == Start(cs, i)
      && r.sections[j].offset - r.fileoff == s.offset - cs[i].fileoff
  {
    hide Rewritten, Start;
    SectionKeepsDistance(cs, i, j);
    SegmentRewritten(cs, i);
    StartsGrow(cs, i, |cs|);
  }

  lemma StaysBehind(x: u32, was: u64)
    ensures x % W32 == (x - was) % W32 <==> was % W32 == 0
  {
    assert x == (x - was) + was;
    var q := was / W32;
    assert x - was == (x - was % W32) + (-q) * W32;
    SameRemainder(x - was % W32, -q);
  }

  /** An empty segment that was at offset 8, with a section there: the section is at distance 8 afterwards. */
  lemma EmptySegmentLosesSection() returns (c: LoadCommand)
    ensures c.Segment? && c.filesize == 0 && |c.sections| == 1 && c.sections[0].offset - c.fileoff == 0
    ensures var r := Rewritten([c], 0); r.Segment? && |r.sections| == 1 && r.sections[0].offset - r.fileoff == 8
  {
    c := Segment("", 0, 0, 8, 0, [Section("", 0, 0, 8, 0, 0)]);
    SegmentRewritten([c], 0);
  }

  lemma MovedSectionIs(s: Section, was: u64, now: nat)
    requires s.offset > 0
    ensures var d, d' := s.offset - was, MovedSection(s, was, now).offset - now % W64;
      d' % W32 == d % W32 && (d' == d <==> 0 <= now % W64 + d < W32)
  {
    var x := MovedSection(s, was, now).offset;
    Shifted(s.offset, was, now);
    assert x - now % W64 == (x - now) + now / W64 * 0x1_0000_0000 * W32;
    SameRemainder(x - now, now / W64 * 0x1_0000_0000);
    assert now + (s.offset - was) == (now % W64 + (s.offset - was)) + now / W64 * 0x1_0000_0000 * W32;
    SameRemainder(now % W64 + (s.offset - was), now / W64 * 0x1_0000_0000);
  }

  lemma Shifted(x: int, was: int, now: int)
    ensures ((now + (x - was)) % W32 - now) % W32 == (x - was) % W32
  {
    var q := (now + (x - was)) / W32;
    assert (now + (x - was)) % W32 - now == (x - was) + (-q) * W32;
    SameRemainder(x - was, -q);
  }

  lemma SameRemainder(a: int, q: int)
    ensures (a + q * W32) % W32 == a % W32
  {
    assert a + q * W32 == a % W32 + (a / W32 + q) * W32;
  }

  /** So the bytes of a section are where its new offset says. */
  lemma SectionPreserved(k: Image, p: Place, cs: seq<LoadCommand>, header: seq<Bytes.byte>, file: seq<Bytes.byte>,
                         i: nat, j: nat, d: nat)
    requires Extracted(k, p, cs, header, file) && Small(cs) && i < |cs| && cs[i].Segment? && j < |cs[i].sections|
    requires var c, s := cs[i], cs[i].sections[j];
      InSegment(c, s) && s.offset - c.fileoff + d < c.filesize && |header| <= Start(cs, i) + (s.offset - c.fileoff) + d
    ensures var r, s, offset := Rewritten(cs, i), cs[i].sections[j], SourceOffset(k, p, cs[i].vmaddr);
      && r.Segment? && j < |r.sections| && r.sections[j].offset + d < |file| && offset.Some?
      && offset.value + (s.offset - cs[i].fileoff) + d < |k.bytes|
      && file[r.sections[j].offset + d] == k.bytes[offset.value + (s.offset - cs[i].fileoff) + d]
  {
    var s := cs[i].sections[j];
    SectionInSegment(cs, i, j);
    SegmentPreserved(k, p, cs, header, file, i, s.offset - cs[i].fileoff + d);
  }

  /** The l-th command is the last __LINKEDIT with file bytes; there is none if l is -1. */
  predicate LinkeditAt(cs: seq<LoadCommand>, l: int) {
    && -1 <= l < |cs|
    && (l >= 0 ==> cs[l].Segment? && cs[l].filesize > 0 && cs[l].name == "__LINKEDIT")
    && forall i :: l < i < |cs| ==> !(cs[i].Segment? && cs[i].filesize > 0 && cs[i].name == "__LINKEDIT")
  }

  /** Where it was, and is; 0 if there is none. */
  function Before(cs: seq<LoadCommand>, l: int): int
    requires LinkeditAt(cs, l)
  {
    if l >= 0 then cs[l].fileoff else 0
  }

  function After(cs: seq<LoadCommand>, l: int): nat
    requires LinkeditAt(cs, l)
  {
    if l >= 0 then Start(cs, l) else 0
  }

  lemma {:induction false} LinkeditIs(cs: seq<LoadCommand>, l: int)
    requires LinkeditAt(cs, l)
    ensures LinkeditWas(cs) == Before(cs, l) && LinkeditNow(cs) == After(cs, l)
    decreases |cs|
  {
    if cs != [] && l < |cs| - 1 {
      var front := cs[..|cs| - 1];
      LinkeditIs(front, l);
      if l >= 0 { StartPrefix(cs, |cs| - 1, l); }
    }
  }

  /** A table in __LINKEDIT: its offset in the collection. */
  predicate InLinkedit(cs: seq<LoadCommand>, l: int, x: u32) {
    LinkeditAt(cs, l) && l >= 0 && x > 0 && cs[l].fileoff <= x <= cs[l].fileoff + cs[l].filesize
  }

  lemma AdjustedKeepsDistance(cs: seq<LoadCommand>, l: int, x: u32)
    requires LinkeditAt(cs, l)
    ensures Follows(cs, l, x, Adjusted(x, LinkeditWas(cs), LinkeditNow(cs)))
  {
    LinkeditIs(cs, l);
    if l >= 0 { StartsGrow(cs, l, |cs|); }
    Shifted(x, LinkeditWas(cs), LinkeditNow(cs));
  }

  /** y is as far from the new __LINKEDIT as x from the old one: modulo 2^32 always, exactly if it is in __LINKEDIT and
      the file smaller than 2^32 bytes.  0 stands for no table. */
  predicate Follows(cs: seq<LoadCommand>, l: int, x: u32, y: u32)
    requires LinkeditAt(cs, l)
  {
    && (x == 0 ==> y == 0)
    && (x > 0 ==> (y - After(cs, l)) % W32 == (x - Before(cs, l)) % W32)
    && (Small(cs) && InLinkedit(cs, l, x) ==> y - After(cs, l) == x - Before(cs, l))
  }

  /** The offsets in a command that point into __LINKEDIT. */
  function Tables(c: LoadCommand): seq<u32> {
    match c
    case Segment(_, _, _, _, _, sections) => seq(|sections|, j requires 0 <= j < |sections| => sections[j].reloff)
    case Symtab(symoff, stroff) => [symoff, stroff]
    case Dysymtab(tocoff, modtaboff, extrefsymoff, indirectsymoff, extreloff, locreloff) =>
      [tocoff, modtaboff, extrefsymoff, indirectsymoff, extreloff, locreloff]
    case SplitInfo(dataoff) => [dataoff]
    case _ => []
  }

  /** Every table of every command that is left keeps its distance from __LINKEDIT. */
  lemma TableKeepsDistance(cs: seq<LoadCommand>, l: int, i: nat, t: nat)
    requires LinkeditAt(cs, l) && i < |cs| && t < |Tables(cs[i])| && !Rewritten(cs, i).Forced0?
    ensures |Tables(Rewritten(cs, i))| == |Tables(cs[i])|
    ensures Follows(cs, l, Tables(cs[i])[t], Tables(Rewritten(cs, i))[t])
  {
    hide Follows;
    AdjustedKeepsDistance(cs, l, Tables(cs[i])[t]);
    TablesRewritten(cs, i, t);
  }

  lemma TablesRewritten(cs: seq<LoadCommand>, i: nat, t: nat)
    requires i < |cs| && t < |Tables(cs[i])| && !Rewritten(cs, i).Forced0?
    ensures |Tables(Rewritten(cs, i))| == |Tables(cs[i])|
    ensures Tables(Rewritten(cs, i))[t] == Adjusted(Tables(cs[i])[t], LinkeditWas(cs), LinkeditNow(cs))
  {
    hide LinkeditWas, LinkeditNow, Start, LastDysymtab, HasSymtab, Adjusted;
  }

  lemma TablePreserved(k: Image, p: Place, cs: seq<LoadCommand>, header: seq<Bytes.byte>, file: seq<Bytes.byte>,
                       l: int, x: u32, d: nat)
    requires Extracted(k, p, cs, header, file) && Small(cs) && InLinkedit(cs, l, x)
    requires LinkeditAt(cs, l)
    requires x - cs[l].fileoff + d < cs[l].filesize && |header| <= Start(cs, l) + (x - cs[l].fileoff) + d
    ensures var y, offset := Adjusted(x, LinkeditWas(cs), LinkeditNow(cs)), SourceOffset(k, p, cs[l].vmaddr);
      && y + d < |file| && offset.Some? && offset.value + (x - cs[l].fileoff) + d < |k.bytes|
      && file[y + d] == k.bytes[offset.value + (x - cs[l].fileoff) + d]
  {
    AdjustedKeepsDistance(cs, l, x);
    SegmentPreserved(k, p, cs, header, file, l, x - cs[l].fileoff + d);
  }

  /** Exactly the commands for tables become void when __LINKEDIT is missing or at the start of the file, and the last
      LC_DYSYMTAB when there is no LC_SYMTAB; the others keep their type. */
  lemma SymbolTables(cs: seq<LoadCommand>, l: int, i: nat)
    requires i < |cs| && LinkeditAt(cs, l)
    ensures Rewritten(cs, i).Forced0? <==>
      || cs[i].Forced0?
      || ((cs[i].Symtab? || cs[i].Dysymtab? || cs[i].SplitInfo?) && (l == -1 || Start(cs, l) == 0))
      || (cs[i].Dysymtab? && (forall j :: i < j < |cs| ==> !cs[j].Dysymtab?)
          && forall j :: 0 <= j < |cs| ==> !cs[j].Symtab?)
    ensures !Rewritten(cs, i).Forced0? ==>
      var r := Rewritten(cs, i);
      && (r.Symtab? <==> cs[i].Symtab?) && (r.Dysymtab? <==> cs[i].Dysymtab?) && (r.SplitInfo? <==> cs[i].SplitInfo?)
      && (r.Segment? <==> cs[i].Segment?)
  {
    LastDysymtabIs(cs);
    LinkeditIs(cs, l);
  }

  /** Nothing changes but file offsets and the type of what becomes void: of a segment and its sections everything else
      stays, of other commands all. */
  lemma OnlyOffsetsChange(cs: seq<LoadCommand>, i: nat)
    requires i < |cs|
    ensures cs[i].Other? || cs[i].Forced0? ==> Rewritten(cs, i) == cs[i]
    ensures Rewritten(cs, i).Forced0? && !cs[i].Forced0? ==>
      var c, r := cs[i], Rewritten(cs, i).was;
      r == c || (c.Dysymtab? && r.Dysymtab? && LinkeditNow(cs) > 0)
    ensures cs[i].Segment? ==>
      var c, r := cs[i], Rewritten(cs, i);
      && r.Segment? && |r.sections| == |c.sections|
      && (r.name, r.vmaddr, r.vmsize, r.filesize) == (c.name, c.vmaddr, c.vmsize, c.filesize)
      && r.fileoff == (if c.filesize > 0 then Start(cs, i) % W64 else 0)
      && forall j :: 0 <= j < |c.sections| ==>
        var s, t := c.sections[j], r.sections[j];
        && (t.name, t.addr, t.size, t.nreloc) == (s.name, s.addr, s.size, s.nreloc)
        && (s.offset == 0 || c.filesize == 0 ==> t.offset == s.offset) && (s.reloff == 0 ==> t.reloff == 0)
  {
    LastDysymtabIs(cs);
    if cs[i].Segment? { SegmentRewritten(cs, i); }
  }

  // ---- addresses ----

  /** A segment stored at x past where the kext was is looked for at x past where it is. */
  lemma SourceOf(k: Image, p: Place, vmaddr: u64, x: int)
    requires Stored(vmaddr, k.threaded, k.base, (p.load + x) % W64)
    ensures SourceAddress(k, p, vmaddr) == Some((p.source + x) % W64)
    ensures SourceOffset(k, p, vmaddr) == Some(Lookup(k.entries, (p.source + x) % W64))
  {
    hide Lookup, Stored, RebasedPointer;
    var address := (p.load + x) % W64;
    RebasedIsStored(vmaddr, k.threaded, k.base, address);
    var q := (p.load + x) / W64;
    assert address - p.load + p.source == p.source + x + (-q) * W64;
    SameRemainder64(p.source + x, -q);
  }

  lemma SameRemainder64(a: int, q: int)
    ensures (a + q * W64) % W64 == a % W64
  {
    assert a + q * W64 == a % W64 + (a / W64 + q) * W64;
  }

  /** When a segment cannot be copied: its address is no rebase, the map has no offset for it, or the collection ends
      before it. */
  lemma WhyNot(k: Image, p: Place, c: LoadCommand, x: int)
    requires c.Segment? && c.filesize > 0
    ensures Fate(k, p, c) == NotARebase <==> forall address: u64 :: !Stored(c.vmaddr, k.threaded, k.base, address)
    ensures Stored(c.vmaddr, k.threaded, k.base, (p.load + x) % W64) ==>
      var offset := Lookup(k.entries, (p.source + x) % W64);
      && (Fate(k, p, c) == NotMapped <==> offset == 0)
      && (Fate(k, p, c) == NotWritten <==> offset > 0 && offset + c.filesize > |k.bytes|)
      && (Fate(k, p, c) == Done <==> 0 < offset <= offset + c.filesize <= |k.bytes|)
  {
    hide Lookup, Stored, RebasedPointer;
    if Stored(c.vmaddr, k.threaded, k.base, (p.load + x) % W64) { SourceOf(k, p, c.vmaddr, x); }
    var r := RebasedPointer(c.vmaddr, k.threaded, k.base);
    if r.Some? { RebasedIsStored(c.vmaddr, k.threaded, k.base, r.value); }
    forall address: u64 | Stored(c.vmaddr, k.threaded, k.base, address) ensures r == Some(address) {
      RebasedIsStored(c.vmaddr, k.threaded, k.base, address);
    }
  }

  /** When the map is that of disjoint segments, and a segment of the kext lies in the file-backed part of one, then
      past the header each byte of the file is the collection's byte at the offset that the map gives for its address,
      which is as far from where the kext is as the stored address from where it was. */
  lemma BytesByAddress(k: Image, p: Place, kcs: seq<LoadCommand>, g: nat, cs: seq<LoadCommand>,
                       header: seq<Bytes.byte>, file: seq<Bytes.byte>, i: nat, x: int, d: nat)
    requires Disjoint(kcs) && k.entries == EntriesOf(kcs) && g < |kcs| && kcs[g].Segment?
    requires Extracted(k, p, cs, header, file) && i < |cs| && d < Size(cs[i]) && |header| <= Start(cs, i) + d
    requires Stored(cs[i].vmaddr, k.threaded, k.base, (p.load + x) % W64)
    requires var c, a := kcs[g], (p.source + x) % W64;
      var end := a + Size(cs[i]);
      c.vmaddr <= a && end <= c.vmaddr + c.vmsize && end <= W64 && end - c.vmaddr <= c.filesize
    ensures var offset := Lookup(k.entries, (p.source + x) % W64 + d);
      Start(cs, i) + d < |file| && 0 < offset < |k.bytes| && file[Start(cs, i) + d] == k.bytes[offset]
  {
    hide Lookup, EntriesOf, Copied, SegmentBytes, Stored;
    SourceOf(k, p, cs[i].vmaddr, x);
    assert Fate(k, p, cs[i]) == Done;
    AnswersAdvance(kcs, g, (p.source + x) % W64, d);
    SegmentPreserved(k, p, cs, header, file, i, d);
  }
}
