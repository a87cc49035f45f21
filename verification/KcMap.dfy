/** From addresses to offsets in the kernel collection file. */
module KcMap {
  import opened Values
  import opened KcModel

  datatype Entry = Entry(vaStart: u64, vaEnd: u64, kcStart: u64, kcEnd: u64)

  function EntryOf(c: LoadCommand): Entry
    requires c.Segment?
  {
    Entry(c.vmaddr, (c.vmaddr + c.vmsize) % W64, c.fileoff, (c.fileoff + c.filesize) % W64)
  }

  /** An entry for each segment, in the order of the commands. */
  function EntriesOf(cs: seq<LoadCommand>): (es: seq<Entry>)
    ensures |es| <= |cs|
  {
    if cs == [] then []
    else
      var c := cs[|cs| - 1];
      EntriesOf(cs[..|cs| - 1]) + if c.Segment? then [EntryOf(c)] else []
  }

  predicate Holds(e: Entry, va: u64) { e.vaStart <= va < e.vaEnd }

  /** The answer of an entry that holds the address; 0 stands for none. */
  function Answer(e: Entry, va: u64): u64
    requires Holds(e, va)
  {
    var offset := (e.kcStart + (va - e.vaStart)) % W64;
    if offset >= e.kcEnd then 0 else offset
  }

  /** The first entry that holds the address answers. */
  function Lookup(es: seq<Entry>, va: u64): u64 {
    if es == [] then 0 else if Holds(es[0], va) then Answer(es[0], va) else Lookup(es[1..], va)
  }

  class KernelMap {
    var vaStart: u64
    var nentries: nat
    var entries: array<Entry>

    ghost predicate Valid() reads this, entries { nentries <= entries.Length }

    ghost function Contents(): seq<Entry>
      requires Valid()
      reads this, entries
    {
      entries[..nentries]
    }

    /** createKCMap. */
    constructor (commands: seq<LoadCommand>)
      ensures Valid() && fresh(entries) && Contents() == EntriesOf(commands)
      ensures Lowest(Contents(), vaStart)
    {
      var es := new Entry[|commands|](i => Entry(0, 0, 0, 0));
      var lowest: u64 := W64 - 1;
      var n: nat := 0;
      for i := 0 to |commands|
        invariant n <= i && n <= es.Length == |commands|
        invariant es[..n] == EntriesOf(commands[..i]) && Lowest(es[..n], lowest)
      {
        assert commands[..i + 1][..i] == commands[..i];
        var c := commands[i];
        if c.Segment? {
          es[n] := EntryOf(c);
          LowestNext(es[..n], lowest, es[n]);
          assert es[..n + 1] == es[..n] + [es[n]];
          if c.vmaddr < lowest { lowest := c.vmaddr; }
          n := n + 1;
        }
      }
      assert commands[..|commands|] == commands;
      vaStart, nentries, entries := lowest, n, es;
    }

    /** getKCFileOffset. */
    method FileOffset(va: u64) returns (offset: u64)
      requires Valid()
      ensures offset == Lookup(Contents(), va)
    {
      for i := 0 to nentries
        invariant Lookup(Contents(), va) == Lookup(Contents()[i..], va)
      {
        var entry := entries[i];
        assert Contents()[i..][0] == entry && Contents()[i..][1..] == Contents()[i + 1..];
        if entry.vaStart <= va < entry.vaEnd {
          offset := (entry.kcStart + (va - entry.vaStart)) % W64;
          return if offset >= entry.kcEnd then 0 else offset;
        }
      }
      return 0;
    }
  }

  /** The lowest start, or the largest number if there is none. */
  predicate Lowest(es: seq<Entry>, va: u64) {
    && (forall i :: 0 <= i < |es| ==> va <= es[i].vaStart)
    && (va == W64 - 1 || exists i :: 0 <= i < |es| && es[i].vaStart == va)
  }

  lemma LowestNext(es: seq<Entry>, va: u64, e: Entry)
    requires Lowest(es, va)
    ensures Lowest(es + [e], if e.vaStart < va then e.vaStart else va)
  {
    var now := es + [e];
    assert now[|es|] == e;
    if va != W64 - 1 && e.vaStart >= va {
      var i :| 0 <= i < |es| && es[i].vaStart == va;
      assert now[i].vaStart == va;
    }
  }

  // ---- room for the entries ----

  const HEADER_SIZE: nat := 24
  const ENTRY_SIZE: nat := 40
  const HEADER_ROOM: nat := 8

  /** createKCMap asks for room for a pointer where it needs that of the header.  That is too little, by the ends of the
      last entry's file range, exactly when there is no command that is not a segment. */
  lemma {:induction false} RoomForEntries(cs: seq<LoadCommand>)
    ensures HEADER_ROOM + ENTRY_SIZE * |cs| < HEADER_SIZE + ENTRY_SIZE * |EntriesOf(cs)| <==>
      forall i :: 0 <= i < |cs| ==> cs[i].Segment?
    decreases |cs|
  {
    if cs != [] {
      var front := cs[..|cs| - 1];
      RoomForEntries(front);
      assert forall i :: 0 <= i < |front| ==> front[i] == cs[i];
    }
  }

  // ---- what the answers mean ----

  /** Where the segment has the address: at this distance from its start. */
  predicate Contains(c: LoadCommand, va: u64)
    requires c.Segment?
  {
    c.vmaddr <= va < c.vmaddr + c.vmsize
  }

  predicate Apart(a: LoadCommand, b: LoadCommand)
    requires a.Segment? && b.Segment?
  {
    a.vmaddr + a.vmsize <= b.vmaddr || b.vmaddr + b.vmsize <= a.vmaddr
  }

  predicate Disjoint(cs: seq<LoadCommand>) {
    forall i, j :: 0 <= i < j < |cs| && cs[i].Segment? && cs[j].Segment? ==> Apart(cs[i], cs[j])
  }

  /** offset is where va is in the file: as far into the file-backed part of c as va is into c. */
  predicate Backs(c: LoadCommand, va: u64, offset: int) {
    c.Segment? && Contains(c, va) && va - c.vmaddr < c.filesize && offset == c.fileoff + (va - c.vmaddr)
  }

  lemma {:induction false} LookupFinds(es: seq<Entry>, va: u64) returns (i: int)
    ensures -1 <= i < |es|
    ensures i == -1 ==> Lookup(es, va) == 0 && forall j :: 0 <= j < |es| ==> !Holds(es[j], va)
    ensures i >= 0 ==> Holds(es[i], va) && Lookup(es, va) == Answer(es[i], va)
  {
    i := -1;
    if es != [] {
      if Holds(es[0], va) {
        i := 0;
      } else {
        var j := LookupFinds(es[1..], va);
        if j >= 0 { i := j + 1; }
        else { assert forall k :: 0 < k < |es| ==> es[k] == es[1..][k - 1]; }
      }
    }
  }

  /** Entries come from segments, and each segment has its entry. */
  lemma {:induction false} EntryFromSegment(cs: seq<LoadCommand>, k: nat) returns (i: nat)
    requires k < |EntriesOf(cs)|
    ensures i < |cs| && cs[i].Segment? && EntriesOf(cs)[k] == EntryOf(cs[i])
    decreases |cs|
  {
    i := |cs| - 1;
    var front := cs[..i];
    if k < |EntriesOf(front)| { i := EntryFromSegment(front, k); }
  }

  lemma {:induction false} SegmentHasEntry(cs: seq<LoadCommand>, i: nat) returns (k: nat)
    requires i < |cs| && cs[i].Segment?
    ensures k < |EntriesOf(cs)| && EntriesOf(cs)[k] == EntryOf(cs[i])
    decreases |cs|
  {
    var front := cs[..|cs| - 1];
    if i < |front| { k := SegmentHasEntry(front, i); } else { k := |EntriesOf(front)|; }
  }

  /** What a segment that contains the address has its entry tell. */
  function Told(c: LoadCommand, va: u64): u64
    requires c.Segment?
  {
    if Holds(EntryOf(c), va) then Answer(EntryOf(c), va) else 0
  }

  /** An entry whose end wraps round holds nothing. */
  lemma EntryHolds(c: LoadCommand, va: u64)
    requires c.Segment?
    ensures Holds(EntryOf(c), va) <==> Contains(c, va) && c.vmaddr + c.vmsize < W64
  {
  }

  /** The answer is that of the only segment that contains the address. */
  lemma LookupIn(cs: seq<LoadCommand>, va: u64) returns (i: int)
    requires Disjoint(cs)
    ensures -1 <= i < |cs| && (i >= 0 ==> cs[i].Segment? && Contains(cs[i], va))
    ensures Lookup(EntriesOf(cs), va) == if i >= 0 then Told(cs[i], va) else 0
    ensures forall j :: 0 <= j < |cs| && j != i && cs[j].Segment? ==> !Contains(cs[j], va)
  {
    hide Answer, EntryOf, Holds, Lookup, EntriesOf;
    var es := EntriesOf(cs);
    var k := LookupFinds(es, va);
    i := -1;
    if k >= 0 {
      i := EntryFromSegment(cs, k);
      EntryHolds(cs[i], va);
    } else if j :| 0 <= j < |cs| && cs[j].Segment? && Contains(cs[j], va) {
      i := j;
      var k' := SegmentHasEntry(cs, i);
    }
    forall j | 0 <= j < |cs| && j != i && cs[j].Segment? ensures !Contains(cs[j], va) {
      if i >= 0 { assert Apart(cs[if i < j then i else j], cs[if i < j then j else i]); }
    }
  }

  /** The ends of its ranges are 64-bit numbers. */
  predicate Ends(c: LoadCommand)
    requires c.Segment?
  {
    c.vmaddr + c.vmsize < W64 && c.fileoff + c.filesize < W64
  }

  /** The segment contains the address, and its answer is wrong: the offset wraps round. */
  predicate Misled(c: LoadCommand, va: u64) {
    && c.Segment? && Contains(c, va) && c.vmaddr + c.vmsize < W64
    && c.fileoff + (va - c.vmaddr) > W64
    && (c.fileoff + c.filesize < W64 || va - c.vmaddr < c.filesize)
  }

  lemma ToldIsRight(c: LoadCommand, va: u64)
    requires c.Segment? && Contains(c, va)
    ensures Told(c, va) != 0 && !Backs(c, va, Told(c, va)) <==> Misled(c, va)
  {
    EntryHolds(c, va);
  }

  lemma ToldIfBacked(c: LoadCommand, va: u64, offset: int)
    requires Backs(c, va, offset) && offset != 0
    ensures Told(c, va) == offset <==> Ends(c)
  {
    EntryHolds(c, va);
  }

  /** A non-zero answer is the offset at the same distance into the only segment that contains the address, in its
      file-backed part, exactly unless that segment misleads.  Where there is such an offset, it is the answer exactly
      if the ends of that segment do not wrap round. */
  lemma AddressMap(cs: seq<LoadCommand>, va: u64)
    requires Disjoint(cs)
    ensures var r := Lookup(EntriesOf(cs), va);
      r != 0 ==>
        ((exists i :: 0 <= i < |cs| && Backs(cs[i], va, r)) <==> !exists i :: 0 <= i < |cs| && Misled(cs[i], va))
    ensures forall i, offset :: 0 <= i < |cs| && Backs(cs[i], va, offset) && offset != 0 ==>
      (Lookup(EntriesOf(cs), va) == offset <==> Ends(cs[i]))
    ensures forall i, j :: 0 <= i < j < |cs| && cs[i].Segment? && cs[j].Segment? ==>
      !(Contains(cs[i], va) && Contains(cs[j], va))
  {
    hide Lookup, EntriesOf, Told;
    var l := LookupIn(cs, va);
    if l >= 0 { ToldIsRight(cs[l], va); }
    forall i, offset | 0 <= i < |cs| && Backs(cs[i], va, offset) && offset != 0
      ensures Lookup(EntriesOf(cs), va) == offset <==> Ends(cs[i])
    {
      ToldIfBacked(cs[i], va, offset);
    }
  }

  /** Along the file-backed part the answers advance with the address. */
  lemma AnswersAdvance(cs: seq<LoadCommand>, i: nat, va: u64, d: nat)
    requires Disjoint(cs) && i < |cs| && cs[i].Segment? && Contains(cs[i], va)
    requires va + d < W64 && Contains(cs[i], va + d)
    requires va - cs[i].vmaddr + d < cs[i].filesize && Lookup(EntriesOf(cs), va) != 0
    ensures Lookup(EntriesOf(cs), va + d) == Lookup(EntriesOf(cs), va) + d
  {
    hide Lookup, EntriesOf, Told;
    var k := LookupIn(cs, va);
    var l := LookupIn(cs, va + d);
    assert k == i == l;
    ToldAdvances(cs[i], va, d);
  }

  lemma ToldAdvances(c: LoadCommand, va: u64, d: nat)
    requires c.Segment? && Contains(c, va) && va + d < W64 && Contains(c, va + d)
    requires va - c.vmaddr + d < c.filesize && Told(c, va) != 0
    ensures Told(c, va + d) == Told(c, va) + d
  {
    hide Told;
    ToldIs(c, va);
    ToldIs(c, va + d);
  }

  /** A sum of two 64-bit numbers wraps round at most once. */
  function Wrapped(n: int): int { if n < W64 then n else n - W64 }

  lemma ToldIs(c: LoadCommand, va: u64)
    requires c.Segment? && Contains(c, va)
    ensures var offset := Wrapped(c.fileoff + (va - c.vmaddr));
      Told(c, va)
      == if c.vmaddr + c.vmsize < W64 && offset < Wrapped(c.fileoff + c.filesize) then offset else 0
  {
    EntryHolds(c, va);
  }

  lemma {:induction false} Twice(cs: seq<LoadCommand>, c: LoadCommand) returns (i: nat, j: nat)
    requires multiset(cs)[c] >= 2
    ensures i < j < |cs| && cs[i] == cs[j] == c
    decreases |cs|
  {
    var front := cs[..|cs| - 1];
    assert cs == front + [cs[|cs| - 1]];
    if cs[|cs| - 1] == c {
      assert c in multiset(front);
      i :| 0 <= i < |front| && front[i] == c;
      j := |cs| - 1;
    } else {
      i, j := Twice(front, c);
    }
  }

  lemma TwoOf(cs: seq<LoadCommand>, i: nat, j: nat)
    requires i < j < |cs| && cs[i] == cs[j]
    ensures multiset(cs)[cs[i]] >= 2
  {
    assert cs == cs[..j] + [cs[j]] + cs[j + 1..];
    assert cs[..j][i] == cs[i] && cs[i] in multiset(cs[..j]);
  }

  lemma DisjointInAnyOrder(cs: seq<LoadCommand>, ds: seq<LoadCommand>)
    requires multiset(cs) == multiset(ds) && Disjoint(cs)
    ensures Disjoint(ds)
  {
    forall i, j | 0 <= i < j < |ds| && ds[i].Segment? && ds[j].Segment? ensures Apart(ds[i], ds[j]) {
      if ds[i] == ds[j] {
        TwoOf(ds, i, j);
        var k, l := Twice(cs, ds[i]);
        assert Apart(cs[k], cs[l]);
      } else {
        assert ds[i] in multiset(cs) && ds[j] in multiset(cs);
        var k :| 0 <= k < |cs| && cs[k] == ds[i];
        var l :| 0 <= l < |cs| && cs[l] == ds[j];
        assert Apart(cs[if k < l then k else l], cs[if k < l then l else k]);
      }
    }
  }

  /** The order of the segments does not matter. */
  lemma OrderDoesNotMatter(cs: seq<LoadCommand>, ds: seq<LoadCommand>, va: u64)
    requires multiset(cs) == multiset(ds) && Disjoint(cs)
    ensures Lookup(EntriesOf(cs), va) == Lookup(EntriesOf(ds), va)
  {
    hide Lookup, EntriesOf, Told;
    DisjointInAnyOrder(cs, ds);
    var i := LookupIn(cs, va);
    var j := LookupIn(ds, va);
    if i >= 0 {
      assert cs[i] in multiset(ds);
      var l :| 0 <= l < |ds| && ds[l] == cs[i];
    }
    if j >= 0 {
      assert ds[j] in multiset(cs);
      var l :| 0 <= l < |cs| && cs[l] == ds[j];
    }
  }

  /** The segment that contains the address answers with an offset that is not at the same distance into its file-backed
      part exactly when the sum of file offset and distance wraps round, as long as its range of addresses does not, and
      either its file range does not or the address is in its file-backed part. */
  lemma LargeSegmentMisleads(cs: seq<LoadCommand>, i: nat, va: u64)
    requires Disjoint(cs) && i < |cs| && cs[i].Segment? && Contains(cs[i], va)
    ensures var c, r, d := cs[i], Lookup(EntriesOf(cs), va), va - cs[i].vmaddr;
      (r != 0 && !(d < c.filesize && r == c.fileoff + d)) <==>
      && c.vmaddr + c.vmsize < W64 && c.fileoff + d > W64
      && (c.fileoff + c.filesize < W64 || d < c.filesize)
  {
    hide Lookup, EntriesOf, Told;
    var j := LookupIn(cs, va);
    assert i == j;
    ToldIsRight(cs[i], va);
  }

  /** It does happen: a segment of one byte at offset 3 that takes up the whole address space. */
  lemma SegmentThatMisleads() returns (c: LoadCommand, va: u64)
    ensures c.Segment? && Contains(c, va) && c.vmaddr + c.vmsize < W64 && c.fileoff + c.filesize < W64
    ensures va - c.vmaddr >= c.filesize && Lookup(EntriesOf([c]), va) == 1
  {
    c, va := Segment("", 0, W64 - 1, 3, 1, []), W64 - 2;
    assert [c][..0] == [];
    assert EntriesOf([c]) == [EntryOf(c)];
    assert Lookup([EntryOf(c)], va) == Answer(EntryOf(c), va);
  }
}
