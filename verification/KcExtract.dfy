/** Extracting a kext from a kernel collection: its segments are packed one after the other into a new file, and
    every offset in its load commands that depends on them is rewritten, in two passes. */
module KcExtract {
  import opened Values
  import Bytes
  import opened KcModel
  import opened KcMap
  import opened KcRebase

  datatype Image = Image(bytes: seq<Bytes.byte>, entries: seq<Entry>, threaded: bool, base: u64)

  /** Where the kext was when its addresses were assigned, and where it is. */
  datatype Place = Place(load: u64, source: u64)

  datatype Outcome = Done | NotMapped | NotWritten | NotARebase

  // ---- pass 1 ----

  /** Where the segment is in the addresses of the collection; None when its address is not a rebase. */
  function SourceAddress(k: Image, p: Place, vmaddr: u64): Option<u64> {
    match RebasedPointer(vmaddr, k.threaded, k.base)
    case None => None
    case Some(a) => Some((a - p.load + p.source) % W64)
  }

  /** The offset in the collection of the segment's first byte. */
  function SourceOffset(k: Image, p: Place, vmaddr: u64): Option<u64> {
    match SourceAddress(k, p, vmaddr)
    case None => None
    case Some(a) => Some(Lookup(k.entries, a))
  }

  /** Whether the segment can be copied. */
  function Fate(k: Image, p: Place, c: LoadCommand): Outcome {
    if !c.Segment? || c.filesize == 0 then Done
    else
      match SourceOffset(k, p, c.vmaddr)
      case None => NotARebase
      case Some(offset) =>
        if offset == 0 then NotMapped else if offset + c.filesize > |k.bytes| then NotWritten else Done
  }

  function Size(c: LoadCommand): nat { if c.Segment? then c.filesize else 0 }

  /** The bytes of the segment in the collection. */
  function SegmentBytes(k: Image, p: Place, c: LoadCommand): (r: seq<Bytes.byte>)
    requires Fate(k, p, c) == Done
    ensures |r| == Size(c)
  {
    if Size(c) == 0 then []
    else
      var offset := SourceOffset(k, p, c.vmaddr).value;
      k.bytes[offset..offset + c.filesize]
  }

  /** Where the segment of the i-th command goes: after those before it. */
  function Start(cs: seq<LoadCommand>, i: nat): nat
    requires i <= |cs|
  {
    if i == 0 then 0 else Start(cs, i - 1) + Size(cs[i - 1])
  }

  function Copied(k: Image, p: Place, cs: seq<LoadCommand>): (r: seq<Bytes.byte>)
    requires forall c :: c in cs ==> Fate(k, p, c) == Done
    ensures |r| == Start(cs, |cs|)
    decreases |cs|
  {
    if cs == [] then []
    else
      StartOfFront(cs);
      Copied(k, p, cs[..|cs| - 1]) + SegmentBytes(k, p, cs[|cs| - 1])
  }

  lemma {:induction false} StartPrefix(cs: seq<LoadCommand>, n: nat, i: nat)
    requires i <= n <= |cs|
    ensures Start(cs[..n], i) == Start(cs, i)
    decreases i
  {
    if i > 0 { StartPrefix(cs, n, i - 1); }
  }

  lemma StartOfFront(cs: seq<LoadCommand>)
    requires cs != []
    ensures Start(cs, |cs|) == Start(cs[..|cs| - 1], |cs| - 1) + Size(cs[|cs| - 1])
  {
    StartPrefix(cs, |cs| - 1, |cs| - 1);
  }

  function MovedSection(s: Section, was: int, now: int): Section {
    if s.offset > 0 then s.(offset := (now + (s.offset - was)) % W32) else s
  }

  /** A segment that has been put at now. */
  function Moved(c: LoadCommand, now: int): LoadCommand
    requires 0 <= now
  {
    if !c.Segment? then c
    else if c.filesize == 0 then c.(fileoff := 0)
    else
      var moved := seq(|c.sections|, j requires 0 <= j < |c.sections| => MovedSection(c.sections[j], c.fileoff, now));
      c.(fileoff := now % W64, sections := moved)
  }

  function IsLinkedit(c: LoadCommand): bool { c.Segment? && c.filesize > 0 && c.name == "__LINKEDIT" }

  /** Where the last __LINKEDIT is in the collection, and in the new file. */
  function LinkeditWas(cs: seq<LoadCommand>): int {
    if cs == [] then 0
    else if IsLinkedit(cs[|cs| - 1]) then cs[|cs| - 1].fileoff
    else LinkeditWas(cs[..|cs| - 1])
  }

  function LinkeditNow(cs: seq<LoadCommand>): (r: nat) {
    if cs == [] then 0
    else if IsLinkedit(cs[|cs| - 1]) then Start(cs, |cs| - 1)
    else LinkeditNow(cs[..|cs| - 1])
  }

  // ---- pass 2 ----

  function Adjusted(x: u32, was: int, now: int): u32 { if x > 0 then (now + (x - was)) % W32 else x }

  /** Tables in __LINKEDIT go with it; the commands for them become void when it is not in the file, or at its start. */
  function Relinked(c: LoadCommand, was: int, now: int): LoadCommand {
    match c
    case Segment(_, _, _, _, _, sections) =>
      c.(sections := seq(|sections|,
        j requires 0 <= j < |sections| => sections[j].(reloff := Adjusted(sections[j].reloff, was, now))))
    case Dysymtab(_, _, _, _, _, _) =>
      if now == 0 then Forced0(c)
      else Dysymtab(Adjusted(c.tocoff, was, now), Adjusted(c.modtaboff, was, now), Adjusted(c.extrefsymoff, was, now),
                    Adjusted(c.indirectsymoff, was, now), Adjusted(c.extreloff, was, now),
                    Adjusted(c.locreloff, was, now))
    case Symtab(_, _) =>
      if now == 0 then Forced0(c) else Symtab(Adjusted(c.symoff, was, now), Adjusted(c.stroff, was, now))
    case SplitInfo(_) =>
      if now == 0 then Forced0(c) else SplitInfo(Adjusted(c.dataoff, was, now))
    case _ => c
  }

  /** The last LC_DYSYMTAB, or -1. */
  function LastDysymtab(cs: seq<LoadCommand>): (r: int)
    ensures -1 <= r < |cs|
  {
    if cs == [] then -1 else if cs[|cs| - 1].Dysymtab? then |cs| - 1 else LastDysymtab(cs[..|cs| - 1])
  }

  predicate HasSymtab(cs: seq<LoadCommand>) { exists i :: 0 <= i < |cs| && cs[i].Symtab? }

  function Voided(c: LoadCommand): LoadCommand { if c.Forced0? then c else Forced0(c) }

  /** The commands after pass 2. */
  function Final(ms: seq<LoadCommand>, was: int, now: int, i: nat): LoadCommand
    requires i < |ms|
  {
    var c := Relinked(ms[i], was, now);
    if i == LastDysymtab(ms) && !HasSymtab(ms) then Voided(c) else c
  }

  /** The commands of the new file. */
  function Rewritten(cs: seq<LoadCommand>, i: nat): LoadCommand
    requires i < |cs|
  {
    var c := Relinked(Moved(cs[i], Start(cs, i)), LinkeditWas(cs), LinkeditNow(cs));
    if i == LastDysymtab(cs) && !HasSymtab(cs) then Voided(c) else c
  }

  // ---- files ----

  /** A file after bytes are written at an offset. */
  function Written(file: seq<Bytes.byte>, at: nat, bytes: seq<Bytes.byte>): (r: seq<Bytes.byte>)
    ensures |r| == if bytes == [] || at + |bytes| <= |file| then |file| else at + |bytes|
    ensures bytes != [] ==> forall j :: 0 <= j < |r| ==>
      r[j] == if at <= j < at + |bytes| then bytes[j - at] else if j < |file| then file[j] else 0
    ensures bytes == [] ==> r == file
  {
    if bytes == [] then file
    else
      var n := if at + |bytes| <= |file| then |file| else at + |bytes|;
      seq<Bytes.byte>(n, j requires 0 <= j < n =>
        if at <= j < at + |bytes| then bytes[j - at] else if j < |file| then file[j] else 0)
  }

  // ---- the extraction ----

  /** The bytes written so far stay, and the segment follows. */
  lemma CopiedNext(k: Image, p: Place, cs: seq<LoadCommand>, i: nat)
    requires i < |cs| && forall j :: 0 <= j <= i ==> Fate(k, p, cs[j]) == Done
    ensures forall c :: c in cs[..i + 1] ==> Fate(k, p, c) == Done
    ensures Copied(k, p, cs[..i + 1]) == Copied(k, p, cs[..i]) + SegmentBytes(k, p, cs[i])
    ensures |Copied(k, p, cs[..i])| == Start(cs, i) && Start(cs, i + 1) == Start(cs, i) + Size(cs[i])
  {
    assert cs[..i + 1][..i] == cs[..i];
    StartPrefix(cs, i, i);
  }

  lemma NothingYet(k: Image, p: Place, cs: seq<LoadCommand>)
    ensures cs[..0] == [] && Start(cs, 0) == 0 && Copied(k, p, []) == [] && LinkeditWas([]) == 0 && LinkeditNow([]) == 0
  {
  }

  lemma LinkeditNext(cs: seq<LoadCommand>, i: nat)
    requires i < |cs|
    ensures LinkeditWas(cs[..i + 1]) == if IsLinkedit(cs[i]) then cs[i].fileoff else LinkeditWas(cs[..i])
    ensures LinkeditNow(cs[..i + 1]) == if IsLinkedit(cs[i]) then Start(cs, i) else LinkeditNow(cs[..i])
  {
    assert cs[..i + 1][..i] == cs[..i];
    StartPrefix(cs, i + 1, i);
  }

  /** The sections of the i-th command go where its segment goes. */
  method MoveSections(cmds: array<LoadCommand>, i: nat, was: int, now: nat)
    requires i < cmds.Length && cmds[i].Segment?
    modifies cmds
    ensures forall j :: 0 <= j < cmds.Length && j != i ==> cmds[j] == old(cmds[j])
    ensures cmds[i].Segment? && cmds[i] == old(cmds[i]).(sections := cmds[i].sections)
      && |cmds[i].sections| == |old(cmds[i].sections)|
    ensures forall j :: 0 <= j < |cmds[i].sections| ==>
      cmds[i].sections[j] == MovedSection(old(cmds[i].sections)[j], was, now)
  {
    ghost var c := cmds[i];
    for j := 0 to |cmds[i].sections|
      invariant forall l :: 0 <= l < cmds.Length && l != i ==> cmds[l] == old(cmds[l])
      invariant cmds[i].Segment? && cmds[i] == c.(sections := cmds[i].sections) && |cmds[i].sections| == |c.sections|
      invariant forall l :: 0 <= l < |c.sections| ==>
        cmds[i].sections[l] == if l < j then MovedSection(c.sections[l], was, now) else c.sections[l]
    {
      var sect := cmds[i].sections[j];
      if sect.offset > 0 {
        cmds[i] := cmds[i].(sections := cmds[i].sections[j := sect.(offset := (now + (sect.offset - was)) % W32)]);
      }
    }
  }

  lemma WrittenAtEnd(file: seq<Bytes.byte>, bytes: seq<Bytes.byte>)
    ensures Written(file, |file|, bytes) == file + bytes
  {
  }

  /** The file when a write has transferred that many of the bytes; a negative number is a failure. */
  function Put(file: seq<Bytes.byte>, at: nat, bytes: seq<Bytes.byte>, wsize: int): seq<Bytes.byte> {
    Written(file, at, bytes[..if wsize < 0 then 0 else if wsize > |bytes| then |bytes| else wsize])
  }

  lemma PutWhole(file: seq<Bytes.byte>, at: nat, bytes: seq<Bytes.byte>, wsize: int)
    requires wsize >= |bytes|
    ensures Put(file, at, bytes, wsize) == Written(file, at, bytes)
  {
    assert bytes[..|bytes|] == bytes;
  }

  /** As much as was written follows what there was. */
  lemma PutAtEnd(file: seq<Bytes.byte>, bytes: seq<Bytes.byte>, wsize: int)
    requires wsize < |bytes|
    ensures Put(file, |file|, bytes, wsize) == file + bytes[..if wsize < 0 then 0 else wsize]
  {
  }

  /** Pass 1 for a segment that is not empty; wsize is what writing it comes to. */
  method CopySegment(kcmap: KernelMap, k: Image, p: Place, cmds: array<LoadCommand>, i: nat, file: seq<Bytes.byte>,
                     fileoff: nat, wsize: int)
    returns (outcome: Outcome, file': seq<Bytes.byte>)
    requires kcmap.Valid() && kcmap.Contents() == k.entries
    requires i < cmds.Length && cmds[i].Segment? && cmds[i].filesize > 0
    modifies cmds
    ensures var c := old(cmds[i]);
      && outcome == (if Fate(k, p, c) == Done && wsize < c.filesize then NotWritten else Fate(k, p, c))
      && file' == (if Fate(k, p, c) == Done then Put(file, fileoff, SegmentBytes(k, p, c), wsize) else file)
      && cmds[i] == (if outcome == Done then Moved(c, fileoff) else c)
    ensures forall j :: 0 <= j < cmds.Length && j != i ==> cmds[j] == old(cmds[j])
  {
    hide Put, Lookup;
    ghost var c := cmds[i];
    file' := file;
    var address := RebasedPointer(cmds[i].vmaddr, k.threaded, k.base);
    if address == None { return NotARebase, file'; }
    var kcfileoff := kcmap.FileOffset((address.value - p.load + p.source) % W64);
    if kcfileoff == 0 { return NotMapped, file'; }
    if kcfileoff + cmds[i].filesize > |k.bytes| { return NotWritten, file'; }
    file' := Put(file, fileoff, k.bytes[kcfileoff..kcfileoff + cmds[i].filesize], wsize);
    if wsize < cmds[i].filesize { return NotWritten, file'; }
    MoveSections(cmds, i, cmds[i].fileoff, fileoff);
    cmds[i] := cmds[i].(fileoff := fileoff % W64);
    assert cmds[i].sections == Moved(c, fileoff).sections;
    outcome := Done;
  }

  /** The first n segments can be copied, and are written completely; writes(i) is what writing the i-th comes to. */
  ghost predicate CopiedUpTo(k: Image, p: Place, cs: seq<LoadCommand>, writes: nat -> int, n: nat)
    requires n <= |cs|
  {
    forall j :: 0 <= j < n ==> Fate(k, p, cs[j]) == Done && (Size(cs[j]) > 0 ==> writes(j) >= Size(cs[j]))
  }

  /** The i-th command is the first whose segment cannot be copied or written; those before it have been, and as much
      of it as was written. */
  ghost predicate FailsAt(k: Image, p: Place, cs: seq<LoadCommand>, writes: nat -> int, i: int, outcome: Outcome,
                          file: seq<Bytes.byte>)
  {
    && 0 <= i < |cs| && CopiedUpTo(k, p, cs, writes, i) && (forall c :: c in cs[..i] ==> Fate(k, p, c) == Done)
    && if Fate(k, p, cs[i]) != Done then outcome == Fate(k, p, cs[i]) && file == Copied(k, p, cs[..i])
       else
         && outcome == NotWritten && writes(i) < Size(cs[i])
         && file == Copied(k, p, cs[..i]) + SegmentBytes(k, p, cs[i])[..if writes(i) < 0 then 0 else writes(i)]
  }

  /** Pass 1. */
  method CopySegments(kcmap: KernelMap, k: Image, p: Place, cmds: array<LoadCommand>, writes: nat -> int)
    returns (outcome: Outcome, file: seq<Bytes.byte>, was: int, now: nat)
    requires kcmap.Valid() && kcmap.Contents() == k.entries
    modifies cmds
    ensures var cs := old(cmds[..]);
      if outcome == Done then
        && CopiedUpTo(k, p, cs, writes, |cs|) && (forall c :: c in cs ==> Fate(k, p, c) == Done)
        && file == Copied(k, p, cs) && was == LinkeditWas(cs) && now == LinkeditNow(cs)
        && forall i :: 0 <= i < |cs| ==> cmds[i] == Moved(cs[i], Start(cs, i))
      else exists i :: FailsAt(k, p, cs, writes, i, outcome, file)
  {
    hide SegmentBytes, Fate, Written, Put, Moved, Lookup, Copied, Start, LinkeditWas, LinkeditNow;
    ghost var cs := cmds[..];
    outcome, file, was, now := Done, [], 0, 0;
    NothingYet(k, p, cs);
    var fileoff: nat := 0;
    for i := 0 to cmds.Length
      invariant outcome == Done && cmds.Length == |cs| && fileoff == Start(cs, i)
      invariant CopiedUpTo(k, p, cs, writes, i)
      invariant forall c :: c in cs[..i] ==> Fate(k, p, c) == Done
      invariant file == Copied(k, p, cs[..i]) && was == LinkeditWas(cs[..i]) && now == LinkeditNow(cs[..i])
      invariant forall j :: 0 <= j < i ==> cmds[j] == Moved(cs[j], Start(cs, j))
      invariant forall j :: i <= j < cmds.Length ==> cmds[j] == cs[j]
    {
      LinkeditNext(cs, i);
      var seg := cmds[i];
      if seg.Segment? && seg.filesize > 0 {
        outcome, file := CopySegment(kcmap, k, p, cmds, i, file, fileoff, writes(i));
        if outcome != Done {
          StartPrefix(cs, i, i);
          if Fate(k, p, seg) == Done { PutAtEnd(Copied(k, p, cs[..i]), SegmentBytes(k, p, seg), writes(i)); }
          assert FailsAt(k, p, cs, writes, i, outcome, file);
          return;
        }
        CopiedNext(k, p, cs, i);
        PutWhole(Copied(k, p, cs[..i]), fileoff, SegmentBytes(k, p, cs[i]), writes(i));
        WrittenAtEnd(Copied(k, p, cs[..i]), SegmentBytes(k, p, cs[i]));
        if seg.name == "__LINKEDIT" {
          was, now := seg.fileoff, fileoff;
        }
        fileoff := fileoff + seg.filesize;
      } else {
        NothingToCopy(k, p, cs[i]);
        CopiedNext(k, p, cs, i);
        MovedEmpty(seg, fileoff);
        if seg.Segment? { cmds[i] := seg.(fileoff := 0); }
      }
    }
    assert cs[..|cs|] == cs;
  }

  lemma MovedEmpty(c: LoadCommand, now: nat)
    requires Size(c) == 0
    ensures Moved(c, now) == if c.Segment? then c.(fileoff := 0) else c
  {
  }

  lemma NothingToCopy(k: Image, p: Place, c: LoadCommand)
    requires Size(c) == 0
    ensures Fate(k, p, c) == Done && SegmentBytes(k, p, c) == []
  {
  }

  /** The relocations of the sections of the i-th command go with __LINKEDIT. */
  method AdjustSections(cmds: array<LoadCommand>, i: nat, was: int, now: nat)
    requires i < cmds.Length && cmds[i].Segment?
    modifies cmds
    ensures cmds[i] == Relinked(old(cmds[i]), was, now)
    ensures forall j :: 0 <= j < cmds.Length && j != i ==> cmds[j] == old(cmds[j])
  {
    ghost var c := cmds[i];
    for j := 0 to |cmds[i].sections|
      invariant forall l :: 0 <= l < cmds.Length && l != i ==> cmds[l] == old(cmds[l])
      invariant cmds[i].Segment? && cmds[i] == c.(sections := cmds[i].sections) && |cmds[i].sections| == |c.sections|
      invariant forall l :: 0 <= l < |c.sections| ==>
        cmds[i].sections[l] == if l < j
          then c.sections[l].(reloff := Adjusted(c.sections[l].reloff, was, now)) else c.sections[l]
    {
      var sect := cmds[i].sections[j];
      if sect.reloff > 0 {
        cmds[i] := cmds[i].(sections := cmds[i].sections[j := sect.(reloff := (now + (sect.reloff - was)) % W32)]);
      }
    }
    assert cmds[i].sections == Relinked(c, was, now).sections;
  }

  lemma LastDysymtabNext(cs: seq<LoadCommand>, i: nat)
    requires i < |cs|
    ensures LastDysymtab(cs[..i + 1]) == if cs[i].Dysymtab? then i else LastDysymtab(cs[..i])
    ensures HasSymtab(cs[..i + 1]) <==> HasSymtab(cs[..i]) || cs[i].Symtab?
  {
    assert cs[..i + 1][..i] == cs[..i] && cs[..i + 1][i] == cs[i];
    if HasSymtab(cs[..i]) {
      var j :| 0 <= j < i && cs[..i][j].Symtab?;
      assert cs[..i + 1][j].Symtab?;
    }
  }

  /** Pass 2, and the check that the symbol tables come together. */
  method AdjustCommands(cmds: array<LoadCommand>, was: int, now: nat)
    modifies cmds
    ensures forall i :: 0 <= i < cmds.Length ==> cmds[i] == Final(old(cmds[..]), was, now, i)
  {
    hide Final;
    ghost var ms := cmds[..];
    var dysymtab, symtab := -1, false;
    for i := 0 to cmds.Length
      invariant dysymtab == LastDysymtab(ms[..i]) && (symtab <==> HasSymtab(ms[..i]))
      invariant forall j :: 0 <= j < i ==> cmds[j] == Relinked(ms[j], was, now)
      invariant forall j :: i <= j < cmds.Length ==> cmds[j] == ms[j]
    {
      LastDysymtabNext(ms, i);
      match cmds[i] {
        case Segment(_, _, _, _, _, _) => AdjustSections(cmds, i, was, now);
        case Dysymtab(tocoff, modtaboff, extrefsymoff, indirectsymoff, extreloff, locreloff) =>
          dysymtab := i;
          if now != 0 {
            cmds[i] := Dysymtab(Adjusted(tocoff, was, now), Adjusted(modtaboff, was, now),
                                Adjusted(extrefsymoff, was, now), Adjusted(indirectsymoff, was, now),
                                Adjusted(extreloff, was, now), Adjusted(locreloff, was, now));
          } else {
            cmds[i] := Forced0(cmds[i]);
          }
        case Symtab(symoff, stroff) =>
          symtab := true;
          if now != 0 {
            cmds[i] := Symtab(Adjusted(symoff, was, now), Adjusted(stroff, was, now));
          } else {
            cmds[i] := Forced0(cmds[i]);
          }
        case SplitInfo(dataoff) =>
          if now != 0 {
            cmds[i] := SplitInfo(Adjusted(dataoff, was, now));
          } else {
            cmds[i] := Forced0(cmds[i]);
          }
        case Other(_) =>
        case Forced0(_) =>
      }
    }
    assert ms[..|ms|] == ms;
    forall i | 0 <= i < |ms| ensures Final(ms, was, now, i) ==
      if i == dysymtab && !symtab then Voided(Relinked(ms[i], was, now)) else Relinked(ms[i], was, now) {
      FinalIs(ms, was, now, i);
    }
    if dysymtab != -1 && !symtab {
      cmds[dysymtab] := Voided(cmds[dysymtab]);
    }
  }

  lemma FinalIs(ms: seq<LoadCommand>, was: int, now: int, i: nat)
    requires i < |ms|
    ensures Final(ms, was, now, i) ==
      if i == LastDysymtab(ms) && !HasSymtab(ms) then Voided(Relinked(ms[i], was, now)) else Relinked(ms[i], was, now)
  {
  }

  lemma {:induction false} SameLastDysymtab(cs: seq<LoadCommand>, ms: seq<LoadCommand>)
    requires |ms| == |cs| && forall i :: 0 <= i < |cs| ==> (ms[i].Dysymtab? <==> cs[i].Dysymtab?)
    ensures LastDysymtab(ms) == LastDysymtab(cs)
    decreases |cs|
  {
    if cs != [] { SameLastDysymtab(cs[..|cs| - 1], ms[..|ms| - 1]); }
  }

  lemma FinalOfMoved(cs: seq<LoadCommand>, ms: seq<LoadCommand>, i: nat)
    requires |ms| == |cs| && forall j :: 0 <= j < |cs| ==> ms[j] == Moved(cs[j], Start(cs, j))
    requires i < |cs|
    ensures Final(ms, LinkeditWas(cs), LinkeditNow(cs), i) == Rewritten(cs, i)
  {
    SameLastDysymtab(cs, ms);
    if HasSymtab(cs) {
      var j :| 0 <= j < |cs| && cs[j].Symtab?;
      assert ms[j].Symtab?;
    }
  }

  /** The first bytes of the file are replaced. */
  predicate Overlaid(before: seq<Bytes.byte>, bytes: seq<Bytes.byte>, after: seq<Bytes.byte>) {
    && |after| == (if |bytes| > |before| then |bytes| else |before|)
    && forall j :: 0 <= j < |after| ==> after[j] == if j < |bytes| then bytes[j] else before[j]
  }

  lemma PutAtStart(file: seq<Bytes.byte>, bytes: seq<Bytes.byte>, wsize: int)
    requires wsize < |bytes|
    ensures Overlaid(file, bytes[..if wsize < 0 then 0 else wsize], Put(file, 0, bytes, wsize))
  {
  }

  /** The segments have been copied, but the header was not written completely. */
  ghost predicate HeaderFails(k: Image, p: Place, cs: seq<LoadCommand>, writes: nat -> int, header: seq<Bytes.byte>,
                              outcome: Outcome, file: seq<Bytes.byte>)
  {
    && CopiedUpTo(k, p, cs, writes, |cs|) && (forall c :: c in cs ==> Fate(k, p, c) == Done)
    && outcome == NotWritten && writes(|cs|) < |header|
    && Overlaid(Copied(k, p, cs), header[..if writes(|cs|) < 0 then 0 else writes(|cs|)], file)
  }

  /** extractKext.  The bytes of a header are given by the commands in it; rewriting does not change their number.
      Writing the header is the last write. */
  method ExtractKext(kcmap: KernelMap, k: Image, p: Place, commands: seq<LoadCommand>,
                     layout: seq<LoadCommand> -> seq<Bytes.byte>, writes: nat -> int)
    returns (outcome: Outcome, file: seq<Bytes.byte>, cmds: array<LoadCommand>)
    requires kcmap.Valid() && kcmap.Contents() == k.entries
    ensures fresh(cmds) && cmds.Length == |commands|
    ensures outcome == Done ==>
      && CopiedUpTo(k, p, commands, writes, |commands|) && writes(|commands|) >= |layout(cmds[..])|
      && (forall c :: c in commands ==> Fate(k, p, c) == Done)
      && (forall i :: 0 <= i < |commands| ==> cmds[i] == Rewritten(commands, i))
      && file == Written(Copied(k, p, commands), 0, layout(cmds[..]))
    ensures outcome != Done ==>
      || (exists i :: FailsAt(k, p, commands, writes, i, outcome, file))
      || HeaderFails(k, p, commands, writes, layout(cmds[..]), outcome, file)
  {
    hide Fate, Copied, Written, Put, Rewritten, Final;
    cmds := new LoadCommand[|commands|](i requires 0 <= i < |commands| => commands[i]);
    assert cmds[..] == commands;
    var was, now;
    outcome, file, was, now := CopySegments(kcmap, k, p, cmds, writes);
    if outcome == NotARebase { return; }
    ghost var ms := cmds[..];
    AdjustCommands(cmds, was, now);
    if outcome == Done {
      var header := layout(cmds[..]);
      if writes(|commands|) >= |header| {
        PutWhole(file, 0, header, writes(|commands|));
      } else {
        PutAtStart(file, header, writes(|commands|));
      }
      file := Put(file, 0, header, writes(|commands|));
      if writes(|commands|) < |header| { outcome := NotWritten; }
      forall i | 0 <= i < |commands| ensures cmds[i] == Rewritten(commands, i) { FinalOfMoved(commands, ms, i); }
    }
  }
}
