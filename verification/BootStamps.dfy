/** Bootstamps: for each cached path a stamp file whose modification time follows the change time of its source. */
module BootStamps {

  datatype Timespec = Timespec(sec: int, nsec: int)
  datatype Timeval = Timeval(sec: int, usec: int)

  predicate Valid(t: Timespec) { 0 <= t.nsec < 1_000_000_000 }

  /** A file's times, no file, or a failure to tell. */
  datatype Stat = Present(accessed: Timespec, changed: Timespec) | Absent | Unreadable

  datatype Stamps = Stamps(access: Timeval, change: Timeval)

  const ZERO: Stamps := Stamps(Timeval(0, 0), Timeval(0, 0))

  function ToTimeval(t: Timespec): Timeval { Timeval(t.sec, t.nsec / 1000) }

  function ToTimespec(t: Timeval): Timespec { Timespec(t.sec, t.usec * 1000) }

  /** ZERO means that there is no file, so a time of zero becomes 1. */
  function ChangeTime(t: Timespec): Timespec { if t.sec == 0 then t.(sec := 1) else t }

  /** The stamps that needsUpdate keeps for a source. */
  function Captured(source: Stat, before: Stamps): Stamps {
    match source
    case Present(accessed, changed) => Stamps(ToTimeval(accessed), ToTimeval(ChangeTime(changed)))
    case Absent => ZERO
    case Unreadable => before
  }

  /** Whether a path is out of date: changed is the stamp file's modification time. */
  function OutOfDate(source: Stat, stamp: Stat): bool {
    if source.Unreadable? || stamp.Unreadable? then false
    else
      var valid := stamp.Present? && stamp.changed.sec != 0;
      if source.Present? then !valid || stamp.changed != ChangeTime(source.changed) else valid
  }

  /** A path with the stamps last captured for it. */
  class CachedPath {
    const rpath: string
    const tspath: string
    var tstamps: Stamps

    constructor (rpath: string, tspath: string)
      ensures this.rpath == rpath && this.tspath == tspath && tstamps == ZERO
    {
      this.rpath, this.tspath, tstamps := rpath, tspath, ZERO;
    }
  }

  /** A volume: its source files and its stamp files. */
  class Volume {
    var sources: string -> Stat
    var stamps: map<string, Stat>
    var tainted: bool
    const readOnly: bool

    constructor (sources: string -> Stat, stamps: map<string, Stat>, tainted: bool, readOnly: bool)
      ensures this.sources == sources && this.stamps == stamps && this.tainted == tainted && this.readOnly == readOnly
    {
      this.sources, this.stamps, this.tainted, this.readOnly := sources, stamps, tainted, readOnly;
    }

    function Stamp(path: string): Stat
      reads this
    {
      if path in stamps then stamps[path] else Absent
    }
  }

  /** needsUpdate. */
  method NeedsUpdate(v: Volume, p: CachedPath) returns (outofdate: bool)
    modifies p
    ensures outofdate == OutOfDate(v.sources(p.rpath), v.Stamp(p.tspath))
    ensures v.sources(p.rpath).Present? && v.Stamp(p.tspath) == Absent ==> outofdate
    ensures p.tstamps == Captured(v.sources(p.rpath), old(p.tstamps))
  {
    var source := v.sources(p.rpath);
    var changed := Timespec(0, 0);
    match source {
      case Present(a, c) =>
        changed := c;
        if changed.sec == 0 { changed := changed.(sec := 1); }
        p.tstamps := Stamps(ToTimeval(a), ToTimeval(changed));
      case Absent => p.tstamps := ZERO;
      case Unreadable => return false;
    }
    var stamp := v.Stamp(p.tspath);
    var valid := false;
    match stamp {
      case Present(_, m) => valid := m.sec != 0;
      case Absent =>
      case Unreadable => return false;
    }
    if source.Present? && valid {
      outofdate := stamp.changed.sec != changed.sec || stamp.changed.nsec != changed.nsec;
    } else if !source.Present? && valid {
      outofdate := true;
    } else if source.Present? && !valid {
      outofdate := true;
    } else {
      outofdate := false;
    }
  }

  datatype Command = ApplyTimes | UnlinkOnly

  /** A stamp file made with these times. */
  function Applied(t: Stamps): Stat { Present(ToTimespec(t.access), ToTimespec(t.change)) }

  function Updated(stamps: map<string, Stat>, path: string, t: Stamps, command: Command): map<string, Stat> {
    if command == ApplyTimes then stamps[path := Applied(t)] else stamps - {path}
  }

  /** updateStamp: the old stamp is unlinked, and a new one made. */
  method UpdateStamp(v: Volume, p: CachedPath, command: Command)
    modifies v`stamps
    ensures v.stamps == Updated(old(v.stamps), p.tspath, p.tstamps, command)
    ensures v.Stamp(p.tspath).Absent? <==> command == UnlinkOnly
    ensures forall path :: path != p.tspath ==> v.Stamp(path) == old(v.Stamp(path))
  {
    v.stamps := v.stamps - {p.tspath};
    if command == ApplyTimes {
      v.stamps := v.stamps[p.tspath := Applied(p.tstamps)];
    }
  }

  /** The cached paths of a volume. */
  class BootCaches {
    const rpspaths: seq<CachedPath>
    const extraKernelCachePaths: seq<CachedPath>
    const efibooter: CachedPath
    const ofbooter: CachedPath
    const miscpaths: seq<CachedPath>
    const efiloccache: CachedPath?     // one of the rpspaths

    constructor (rpspaths: seq<CachedPath>, extraKernelCachePaths: seq<CachedPath>, efibooter: CachedPath,
                 ofbooter: CachedPath, miscpaths: seq<CachedPath>, efiloccache: CachedPath?)
      ensures this.rpspaths == rpspaths && this.extraKernelCachePaths == extraKernelCachePaths
        && this.efibooter == efibooter
      ensures this.ofbooter == ofbooter && this.miscpaths == miscpaths && this.efiloccache == efiloccache
    {
      this.rpspaths, this.extraKernelCachePaths, this.efibooter := rpspaths, extraKernelCachePaths, efibooter;
      this.ofbooter, this.miscpaths, this.efiloccache := ofbooter, miscpaths, efiloccache;
    }

    ghost function Booters(): seq<CachedPath> {
      (if efibooter.rpath != "" then [efibooter] else []) + if ofbooter.rpath != "" then [ofbooter] else []
    }

    /** All paths in use, in the order in which they are checked and stamped. */
    ghost function Paths(): seq<CachedPath> { rpspaths + extraKernelCachePaths + Booters() + miscpaths }

    lemma AllInPaths()
      ensures forall p :: p in rpspaths ==> p in Paths()
      ensures forall p :: p in extraKernelCachePaths ==> p in Paths()
      ensures forall p :: p in Booters() ==> p in Paths()
      ensures forall p :: p in miscpaths ==> p in Paths()
      ensures forall p :: p in Paths() ==>
        p in rpspaths || p in extraKernelCachePaths || p in Booters() || p in miscpaths
      ensures efibooter.rpath != "" ==> efibooter in Booters()
      ensures ofbooter.rpath != "" ==> ofbooter in Booters()
    {
      if ofbooter.rpath != "" { assert Booters()[|Booters()| - 1] == ofbooter; }
      if efibooter.rpath != "" { assert Booters()[0] == efibooter; }
    }

    /** They are different objects with different stamp files. */
    ghost predicate Distinct() { DistinctPaths(Paths()) }
  }

  ghost predicate DistinctPaths(ps: seq<CachedPath>) {
    && (forall i, j :: 0 <= i < j < |ps| ==> ps[i] != ps[j])
    && (forall i, j :: 0 <= i < j < |ps| ==> ps[i].tspath != ps[j].tspath)
  }

  ghost function Objects(ps: seq<CachedPath>): set<CachedPath> { set p | p in ps }

  /** Some path of these, other than skip, is out of date. */
  ghost predicate AnyOutOfDate(v: Volume, ps: seq<CachedPath>, skip: CachedPath?)
    reads v
  {
    exists i :: 0 <= i < |ps| && ps[i] != skip && OutOfDate(v.sources(ps[i].rpath), v.Stamp(ps[i].tspath))
  }

  /** p holds what its source says. */
  ghost predicate Current(v: Volume, p: CachedPath)
    reads v, p
  {
    v.sources(p.rpath).Unreadable? || p.tstamps == Captured(v.sources(p.rpath), ZERO)
  }

  /** A loop of needUpdates over some of its paths. */
  method CheckPaths(v: Volume, ps: seq<CachedPath>, skip: CachedPath?) returns (outofdate: bool)
    modifies Objects(ps)
    ensures outofdate <==> AnyOutOfDate(v, ps, skip)
    ensures forall p :: p in ps && p != skip ==> Current(v, p)
    ensures forall p :: p in ps && (p == skip || v.sources(p.rpath).Unreadable?) ==> p.tstamps == old(p.tstamps)
    ensures forall p {:trigger p.tstamps} :: p in ps ==> p.tstamps == old(p.tstamps) || Current(v, p)
  {
    outofdate := false;
    for i := 0 to |ps|
      invariant outofdate <==> AnyOutOfDate(v, ps[..i], skip)
      invariant forall j :: 0 <= j < i && ps[j] != skip ==> Current(v, ps[j])
      invariant forall p :: p in ps && (p == skip || v.sources(p.rpath).Unreadable?) ==> p.tstamps == old(p.tstamps)
      invariant forall p {:trigger p.tstamps} :: p in ps ==> p.tstamps == old(p.tstamps) || Current(v, p)
    {
      OutOfDateNext(v, ps, i, skip);
      if ps[i] != skip {
        var o := NeedsUpdate(v, ps[i]);
        if o { outofdate := true; }
      }
    }
    assert ps[..|ps|] == ps;
  }

  lemma OutOfDateNext(v: Volume, ps: seq<CachedPath>, i: nat, skip: CachedPath?)
    requires i < |ps|
    ensures AnyOutOfDate(v, ps[..i + 1], skip) <==>
      AnyOutOfDate(v, ps[..i], skip) || (ps[i] != skip && OutOfDate(v.sources(ps[i].rpath), v.Stamp(ps[i].tspath)))
  {
    var now := ps[..i + 1];
    assert now[i] == ps[i];
    if AnyOutOfDate(v, ps[..i], skip) {
      var j :| 0 <= j < i && ps[..i][j] != skip && OutOfDate(v.sources(ps[..i][j].rpath), v.Stamp(ps[..i][j].tspath));
      assert now[j] == ps[..i][j];
    }
    if AnyOutOfDate(v, now, skip) {
      var j :| 0 <= j <= i && now[j] != skip && OutOfDate(v.sources(now[j].rpath), v.Stamp(now[j].tspath));
      if j < i { assert ps[..i][j] == now[j]; }
    }
  }

  /** The part of needUpdates for the booters. */
  method CheckBooters(v: Volume, caches: BootCaches) returns (outofdate: bool)
    modifies Objects(caches.Booters())
    ensures outofdate <==> AnyOutOfDate(v, caches.Booters(), null)
    ensures forall p :: p in caches.Booters() ==> Current(v, p)
    ensures forall p :: p in caches.Booters() && v.sources(p.rpath).Unreadable? ==> p.tstamps == old(p.tstamps)
  {
    hide OutOfDate, AnyOutOfDate;
    caches.AllInPaths();
    BootersOutOfDate(v, caches);
    var efi, of := false, false;
    if caches.efibooter.rpath != "" { efi := NeedsUpdate(v, caches.efibooter); }
    if caches.ofbooter.rpath != "" { of := NeedsUpdate(v, caches.ofbooter); }
    outofdate := efi || of;
  }

  /** needUpdates. */
  method NeedUpdates(caches: BootCaches, v: Volume, anyRoot: bool, earlyBoot: bool)
    returns (any: bool, rps: bool, booters: bool, misc: bool)
    modifies Objects(caches.Paths())
    ensures var all := !anyRoot && v.tainted;
      var skip := if earlyBoot then caches.efiloccache else null;
      && (rps <==> all || AnyOutOfDate(v, caches.rpspaths, skip) || AnyOutOfDate(v, caches.extraKernelCachePaths, null))
      && (booters <==> all || AnyOutOfDate(v, caches.Booters(), null))
      && (misc <==> all || AnyOutOfDate(v, caches.miscpaths, null))
    ensures any <==> rps || booters || misc
    ensures forall p :: p in caches.Paths() && !(earlyBoot && p == caches.efiloccache) ==> Current(v, p)
    ensures forall p :: p in caches.Paths() && v.sources(p.rpath).Unreadable? ==> p.tstamps == old(p.tstamps)
  {
    hide OutOfDate, AnyOutOfDate;
    caches.AllInPaths();
    var all := !anyRoot && v.tainted;
    var first := CheckPaths(v, caches.rpspaths, if earlyBoot then caches.efiloccache else null);
    var extra := CheckPaths(v, caches.extraKernelCachePaths, null);
    var second := CheckBooters(v, caches);
    var last := CheckPaths(v, caches.miscpaths, null);
    rps, booters, misc := all || first || extra, all || second, all || last;
    any := rps || booters || misc;
  }

  lemma BootersOutOfDate(v: Volume, caches: BootCaches)
    ensures var efi, of := caches.efibooter, caches.ofbooter;
      AnyOutOfDate(v, caches.Booters(), null) <==>
      || (efi.rpath != "" && OutOfDate(v.sources(efi.rpath), v.Stamp(efi.tspath)))
      || (of.rpath != "" && OutOfDate(v.sources(of.rpath), v.Stamp(of.tspath)))
  {
    caches.AllInPaths();
    var efi, of, b := caches.efibooter, caches.ofbooter, caches.Booters();
    if efi.rpath != "" { assert b[0] == efi; }
    if of.rpath != "" { assert b[|b| - 1] == of; }
  }

  /** The stamp files after the first n paths have been stamped. */
  ghost function UpdatedAll(stamps: map<string, Stat>, ps: seq<CachedPath>, n: nat, command: Command): map<string, Stat>
    requires n <= |ps|
    reads ps
  {
    if n == 0 then stamps
    else Updated(UpdatedAll(stamps, ps, n - 1, command), ps[n - 1].tspath, ps[n - 1].tstamps, command)
  }

  method StampPaths(v: Volume, ps: seq<CachedPath>, command: Command)
    modifies v`stamps
    ensures v.stamps == UpdatedAll(old(v.stamps), ps, |ps|, command)
  {
    for i := 0 to |ps|
      invariant v.stamps == UpdatedAll(old(v.stamps), ps, i, command)
    {
      UpdateStamp(v, ps[i], command);
    }
  }

  lemma {:induction false} UpdatedAppend(stamps: map<string, Stat>, ps: seq<CachedPath>, qs: seq<CachedPath>, n: nat,
                                         command: Command)
    requires n <= |qs|
    ensures UpdatedAll(stamps, ps + qs, |ps| + n, command)
      == UpdatedAll(UpdatedAll(stamps, ps, |ps|, command), qs, n, command)
    decreases n
  {
    if n > 0 { UpdatedAppend(stamps, ps, qs, n - 1, command); }
    else { UpdatedPrefix(stamps, ps, qs, |ps|, command); }
  }

  lemma {:induction false} UpdatedPrefix(stamps: map<string, Stat>, ps: seq<CachedPath>, qs: seq<CachedPath>, n: nat,
                                         command: Command)
    requires n <= |ps|
    ensures UpdatedAll(stamps, ps + qs, n, command) == UpdatedAll(stamps, ps, n, command)
    decreases n
  {
    if n > 0 { UpdatedPrefix(stamps, ps, qs, n - 1, command); }
  }

  /** The part of updateStamps for the booters. */
  method StampBooters(v: Volume, caches: BootCaches, command: Command)
    modifies v`stamps
    ensures v.stamps == UpdatedAll(old(v.stamps), caches.Booters(), |caches.Booters()|, command)
  {
    hide UpdatedAll;
    BootersUpdated(caches, v.stamps, command);
    if caches.efibooter.rpath != "" { UpdateStamp(v, caches.efibooter, command); }
    if caches.ofbooter.rpath != "" { UpdateStamp(v, caches.ofbooter, command); }
  }

  /** updateStamps: nothing on a volume that is read-only; otherwise all paths, in order, and the mark of
      content that is not the default is removed. */
  method UpdateStamps(caches: BootCaches, v: Volume, command: Command)
    modifies v`stamps, v`tainted
    ensures v.readOnly ==> v.stamps == old(v.stamps) && v.tainted == old(v.tainted)
    ensures !v.readOnly ==>
      v.stamps == UpdatedAll(old(v.stamps), caches.Paths(), |caches.Paths()|, command) && !v.tainted
  {
    hide UpdatedAll;
    if v.readOnly { return; }
    ghost var s0 := v.stamps;
    StampPaths(v, caches.rpspaths, command);
    StampPaths(v, caches.extraKernelCachePaths, command);
    StampBooters(v, caches, command);
    StampPaths(v, caches.miscpaths, command);
    InFourParts(s0, caches.rpspaths, caches.extraKernelCachePaths, caches.Booters(), caches.miscpaths, command);
    v.tainted := false;
  }

  /** Stamping one sequence of paths after another is stamping them together. */
  lemma InTurn(stamps: map<string, Stat>, ps: seq<CachedPath>, qs: seq<CachedPath>, command: Command)
    ensures UpdatedAll(UpdatedAll(stamps, ps, |ps|, command), qs, |qs|, command)
      == UpdatedAll(stamps, ps + qs, |ps + qs|, command)
  {
    hide *;
    var all := ps + qs;
    var n := |all|;
    assert n == |ps| + |qs|;
    UpdatedAppend(stamps, ps, qs, |qs|, command);
    assert UpdatedAll(stamps, all, n, command) == UpdatedAll(UpdatedAll(stamps, ps, |ps|, command), qs, |qs|, command);
  }

  lemma InFourParts(stamps: map<string, Stat>, ps: seq<CachedPath>, qs: seq<CachedPath>, rs: seq<CachedPath>,
                    ts: seq<CachedPath>, command: Command)
    ensures var s1 := UpdatedAll(UpdatedAll(stamps, ps, |ps|, command), qs, |qs|, command);
      var s2 := UpdatedAll(UpdatedAll(s1, rs, |rs|, command), ts, |ts|, command);
      UpdatedAll(stamps, ps + qs + rs + ts, |ps + qs + rs + ts|, command) == s2
  {
    hide UpdatedAll;
    InTurn(stamps, ps, qs, command);
    InTurn(stamps, ps + qs, rs, command);
    InTurn(stamps, ps + qs + rs, ts, command);
  }

  lemma BootersUpdated(caches: BootCaches, stamps: map<string, Stat>, command: Command)
    ensures var b := caches.Booters();
      var s1 := if caches.efibooter.rpath != ""
        then Updated(stamps, caches.efibooter.tspath, caches.efibooter.tstamps, command) else stamps;
      var s2 := if caches.ofbooter.rpath != ""
        then Updated(s1, caches.ofbooter.tspath, caches.ofbooter.tstamps, command) else s1;
      UpdatedAll(stamps, b, |b|, command) == s2
  {
    var b := caches.Booters();
    if |b| == 2 {
      assert UpdatedAll(stamps, b, 1, command)
        == Updated(UpdatedAll(stamps, b, 0, command), b[0].tspath, b[0].tstamps, command);
    }
  }

  // ---- convergence ----

  /** A change time that a stamp file, kept in microseconds, cannot hold. */
  predicate Ragged(source: Stat) { source.Present? && source.changed.nsec % 1000 != 0 }

  /** Once a path is stamped with the times of its source it is out of date only if those cannot be kept. */
  lemma PathConverges(source: Stat, before: Stamps)
    requires source.Present? ==> Valid(source.changed)
    ensures OutOfDate(source, Applied(Captured(source, before))) <==> Ragged(source)
  {
  }

  lemma {:induction false} StampOf(stamps: map<string, Stat>, ps: seq<CachedPath>, i: nat, n: nat)
    requires i < n <= |ps| && DistinctPaths(ps)
    ensures var now := UpdatedAll(stamps, ps, n, ApplyTimes);
      ps[i].tspath in now && now[ps[i].tspath] == Applied(ps[i].tstamps)
    decreases n
  {
    if i < n - 1 { StampOf(stamps, ps, i, n - 1); }
  }

  /** After all paths that have been checked are stamped, what is out of date is exactly what cannot be kept. */
  lemma Convergence(v: Volume, ps: seq<CachedPath>, stamps: map<string, Stat>)
    requires DistinctPaths(ps) && (forall p :: p in ps ==> Current(v, p))
    requires forall p :: p in ps && v.sources(p.rpath).Present? ==> Valid(v.sources(p.rpath).changed)
    requires v.stamps == UpdatedAll(stamps, ps, |ps|, ApplyTimes)
    ensures AnyOutOfDate(v, ps, null) <==> exists i :: 0 <= i < |ps| && Ragged(v.sources(ps[i].rpath))
  {
    hide UpdatedAll, Captured, Applied;
    forall i | 0 <= i < |ps|
      ensures OutOfDate(v.sources(ps[i].rpath), v.Stamp(ps[i].tspath)) <==> Ragged(v.sources(ps[i].rpath))
    {
      assert ps[i] in ps && Current(v, ps[i]);
      StampOf(stamps, ps, i, |ps|);
      PathConverges(v.sources(ps[i].rpath), ZERO);
    }
  }

  lemma OneOutOfDate(v: Volume, p: CachedPath, ps: seq<CachedPath>)
    requires p in ps && OutOfDate(v.sources(p.rpath), v.Stamp(p.tspath))
    ensures AnyOutOfDate(v, ps, null)
  {
    var i :| 0 <= i < |ps| && ps[i] == p;
  }

  lemma PartOutOfDate(v: Volume, ps: seq<CachedPath>, qs: seq<CachedPath>)
    requires (forall p :: p in ps ==> p in qs) && AnyOutOfDate(v, ps, null)
    ensures AnyOutOfDate(v, qs, null)
  {
    var i :| 0 <= i < |ps| && OutOfDate(v.sources(ps[i].rpath), v.Stamp(ps[i].tspath));
    assert ps[i] in ps;
    OneOutOfDate(v, ps[i], qs);
  }

  lemma SomePart(v: Volume, caches: BootCaches)
    requires AnyOutOfDate(v, caches.Paths(), null)
    ensures AnyOutOfDate(v, caches.rpspaths, null) || AnyOutOfDate(v, caches.extraKernelCachePaths, null)
      || AnyOutOfDate(v, caches.Booters(), null) || AnyOutOfDate(v, caches.miscpaths, null)
  {
    var ps := caches.Paths();
    var i :| 0 <= i < |ps| && OutOfDate(v.sources(ps[i].rpath), v.Stamp(ps[i].tspath));
    caches.AllInPaths();
    assert ps[i] in ps;
    if ps[i] in caches.rpspaths { OneOutOfDate(v, ps[i], caches.rpspaths); }
    else if ps[i] in caches.extraKernelCachePaths { OneOutOfDate(v, ps[i], caches.extraKernelCachePaths); }
    else if ps[i] in caches.Booters() { OneOutOfDate(v, ps[i], caches.Booters()); }
    else { OneOutOfDate(v, ps[i], caches.miscpaths); }
  }

  lemma WholeOutOfDate(v: Volume, caches: BootCaches)
    ensures AnyOutOfDate(v, caches.Paths(), null) <==>
      || AnyOutOfDate(v, caches.rpspaths, null) || AnyOutOfDate(v, caches.extraKernelCachePaths, null)
      || AnyOutOfDate(v, caches.Booters(), null) || AnyOutOfDate(v, caches.miscpaths, null)
  {
    hide AnyOutOfDate;
    caches.AllInPaths();
    var ps := caches.Paths();
    if AnyOutOfDate(v, ps, null) { SomePart(v, caches); }
    if AnyOutOfDate(v, caches.rpspaths, null) { PartOutOfDate(v, caches.rpspaths, ps); }
    if AnyOutOfDate(v, caches.extraKernelCachePaths, null) { PartOutOfDate(v, caches.extraKernelCachePaths, ps); }
    if AnyOutOfDate(v, caches.Booters(), null) { PartOutOfDate(v, caches.Booters(), ps); }
    if AnyOutOfDate(v, caches.miscpaths, null) { PartOutOfDate(v, caches.miscpaths, ps); }
  }

  /** needUpdates, updateStamps and needUpdates again: nothing is left to do, unless a source changed at a time that a
      stamp cannot hold. */
  method UpdateVolume(caches: BootCaches, v: Volume, anyRoot: bool) returns (again: bool)
    requires DistinctPaths(caches.Paths()) && !v.readOnly
    requires forall p :: p in caches.Paths() && v.sources(p.rpath).Present? ==> Valid(v.sources(p.rpath).changed)
    modifies v, Objects(caches.Paths())
    ensures again <==> exists i :: 0 <= i < |caches.Paths()| && Ragged(v.sources(caches.Paths()[i].rpath))
  {
    hide UpdatedAll, OutOfDate, AnyOutOfDate;
    caches.AllInPaths();
    var _, _, _, _ := NeedUpdates(caches, v, anyRoot, false);
    ghost var stamps := v.stamps;
    UpdateStamps(caches, v, ApplyTimes);
    Convergence(v, caches.Paths(), stamps);
    WholeOutOfDate(v, caches);
    var rps, booters, misc;
    again, rps, booters, misc := NeedUpdates(caches, v, anyRoot, false);
  }

  // ---- changes of the sources ----

  /** Whether a change from one state of a source to another is noticed, when the stamp was made of the first: exactly
      if the later change time, with 1 for a second of 0, is not the earlier one cut to microseconds.  before is what
      had been captured, in case the earlier times cannot be told. */
  predicate Noticed(earlier: Stat, before: Stamps, later: Stat) {
    match (earlier, later)
    case (_, Unreadable) => false
    case (Present(_, t1), Present(_, t2)) => Second(t1) != Second(t2) || t2.nsec != t1.nsec / 1000 * 1000
    case (Present(_, _), Absent) => true
    case (Absent, _) => later.Present?
    case (Unreadable, Present(_, t)) =>
      before.change.sec == 0 || before.change.sec != Second(t) || before.change.usec * 1000 != t.nsec
    case (Unreadable, Absent) => before.change.sec != 0
  }

  function Second(t: Timespec): int { if t.sec == 0 then 1 else t.sec }

  lemma OutOfDateAfter(earlier: Stat, before: Stamps, later: Stat)
    ensures OutOfDate(later, Applied(Captured(earlier, before))) <==> Noticed(earlier, before, later)
  {
  }

  /** needsUpdate and updateStamp for a path, and needsUpdate again when its source may have changed. */
  method StampAndChange(v: Volume, p: CachedPath, later: string -> Stat) returns (outofdate: bool)
    modifies v, p
    ensures outofdate <==> Noticed(old(v.sources)(p.rpath), old(p.tstamps), later(p.rpath))
    ensures var stamp := v.Stamp(p.tspath);
      match old(v.sources)(p.rpath)
      case Present(accessed, changed) =>
        stamp == Present(Timespec(accessed.sec, accessed.nsec / 1000 * 1000),
                         Timespec(if changed.sec == 0 then 1 else changed.sec, changed.nsec / 1000 * 1000))
      case Absent => stamp == Present(Timespec(0, 0), Timespec(0, 0))
      case Unreadable => stamp.Present?
  {
    OutOfDateAfter(v.sources(p.rpath), p.tstamps, later(p.rpath));
    var _ := NeedsUpdate(v, p);
    UpdateStamp(v, p, ApplyTimes);
    v.sources := later;
    outofdate := NeedsUpdate(v, p);
  }

  /** A change within a microsecond can go unnoticed, and a larger one never does. */
  lemma SmallChangesOnly(accessed: Timespec, before: Stamps, earlier: Timespec, later: Timespec)
    requires Valid(earlier) && Valid(later) && earlier != later && earlier.sec != 0 && later.sec != 0
    ensures !Noticed(Present(accessed, earlier), before, Present(accessed, later)) <==>
      earlier.sec == later.sec && later.nsec % 1000 == 0 && 0 < earlier.nsec - later.nsec < 1000
  {
  }

  /** Some path of these, other than skip, has changed noticeably. */
  ghost predicate AnyNoticed(ps: seq<CachedPath>, skip: CachedPath?, earlier: string -> Stat,
                             before: CachedPath -> Stamps, later: string -> Stat)
  {
    exists i :: 0 <= i < |ps| && ps[i] != skip && Noticed(earlier(ps[i].rpath), before(ps[i]), later(ps[i].rpath))
  }

  lemma AllChanges(v: Volume, ps: seq<CachedPath>, skip: CachedPath?, all: seq<CachedPath>, stamps: map<string, Stat>,
                   earlier: string -> Stat, before: CachedPath -> Stamps)
    requires DistinctPaths(all) && forall p :: p in ps ==> p in all
    requires forall p :: p in all ==> p.tstamps == Captured(earlier(p.rpath), before(p))
    requires v.stamps == UpdatedAll(stamps, all, |all|, ApplyTimes)
    ensures AnyOutOfDate(v, ps, skip) <==> AnyNoticed(ps, skip, earlier, before, v.sources)
  {
    hide UpdatedAll, Captured, Applied, Noticed, OutOfDate;
    forall i | 0 <= i < |ps|
      ensures OutOfDate(v.sources(ps[i].rpath), v.Stamp(ps[i].tspath))
        <==> Noticed(earlier(ps[i].rpath), before(ps[i]), v.sources(ps[i].rpath))
    {
      assert ps[i] in ps;
      var j :| 0 <= j < |all| && all[j] == ps[i];
      StampOf(stamps, all, j, |all|);
      OutOfDateAfter(earlier(ps[i].rpath), before(ps[i]), v.sources(ps[i].rpath));
    }
  }

  /** needUpdates and updateStamps, and needUpdates again when sources may have changed: each result is true exactly if
      a path of its kind has changed noticeably; in early boot one path is left out. */
  method StampAllAndChange(caches: BootCaches, v: Volume, anyRoot: bool, earlyBoot: bool, later: string -> Stat,
                           ghost before: CachedPath -> Stamps)
    returns (any: bool, rps: bool, booters: bool, misc: bool)
    requires DistinctPaths(caches.Paths()) && !v.readOnly
    requires forall p :: p in caches.Paths() ==> before(p) == p.tstamps
    modifies v, Objects(caches.Paths())
    ensures var s1, skip := old(v.sources), if earlyBoot then caches.efiloccache else null;
      && (rps <==> AnyNoticed(caches.rpspaths, skip, s1, before, later)
                   || AnyNoticed(caches.extraKernelCachePaths, null, s1, before, later))
      && (booters <==> AnyNoticed(caches.Booters(), null, s1, before, later))
      && (misc <==> AnyNoticed(caches.miscpaths, null, s1, before, later))
    ensures any <==> rps || booters || misc
  {
    hide UpdatedAll, AnyOutOfDate, OutOfDate, AnyNoticed, Noticed;
    caches.AllInPaths();
    ghost var all, earlier := caches.Paths(), v.sources;
    var _, _, _, _ := NeedUpdates(caches, v, anyRoot, false);
    ghost var stamps := v.stamps;
    UpdateStamps(caches, v, ApplyTimes);
    v.sources := later;
    AllChanges(v, caches.rpspaths, if earlyBoot then caches.efiloccache else null, all, stamps, earlier, before);
    AllChanges(v, caches.extraKernelCachePaths, null, all, stamps, earlier, before);
    AllChanges(v, caches.Booters(), null, all, stamps, earlier, before);
    AllChanges(v, caches.miscpaths, null, all, stamps, earlier, before);
    any, rps, booters, misc := NeedUpdates(caches, v, anyRoot, earlyBoot);
  }
}
