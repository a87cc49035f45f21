/** The modification time that the builder of a prelinked kernel gives it, and the one that the check expects. */
module CacheFreshness {
  import opened Values

  datatype Time = Time(sec: int, usec: int)

  /** A folder or file that can or cannot be statted; only modification times matter. */
  datatype Stat = Known(modified: Time) | Unknown

  datatype Expected = Failed | Stale | NoTime | ModTime(time: Time)

  predicate Later(a: Time, b: Time) { a.sec > b.sec || (a.sec == b.sec && a.usec > b.usec) }

  function Bumped(t: Time): Time { t.(sec := t.sec + 1) }

  /** The latest of the known times, and of zero. */
  ghost predicate Latest(dirs: seq<Stat>, t: Time) {
    && (forall i :: 0 <= i < |dirs| && dirs[i].Known? ==> !Later(dirs[i].modified, t))
    && (t == Time(0, 0) || exists i :: 0 <= i < |dirs| && dirs[i].Known? && dirs[i].modified == t)
    && !Later(Time(0, 0), t)
  }

  /** In numbers: no time is later, seconds first, and it is one of them or zero. */
  lemma LatestMeans(dirs: seq<Stat>, t: Time)
    requires Latest(dirs, t)
    ensures forall i :: 0 <= i < |dirs| && dirs[i].Known? ==>
      dirs[i].modified.sec < t.sec || (dirs[i].modified.sec == t.sec && dirs[i].modified.usec <= t.usec)
    ensures t != Time(0, 0) ==> exists i :: 0 <= i < |dirs| && dirs[i] == Known(t)
  {
    if t != Time(0, 0) {
      var i :| 0 <= i < |dirs| && dirs[i].Known? && dirs[i].modified == t;
      assert dirs[i] == Known(t);
    }
  }

  predicate AllKnown(dirs: seq<Stat>) { forall i :: 0 <= i < |dirs| ==> dirs[i].Known? }

  lemma LatestNext(dirs: seq<Stat>, i: nat, t: Time)
    requires i < |dirs| && dirs[i].Known? && Latest(dirs[..i], t)
    ensures Latest(dirs[..i + 1], if Later(dirs[i].modified, t) then dirs[i].modified else t)
  {
    var now := dirs[..i + 1];
    assert now[i] == dirs[i];
    forall j | 0 <= j < i ensures now[j] == dirs[..i][j] {}
    if !Later(dirs[i].modified, t) && t != Time(0, 0) {
      var j :| 0 <= j < i && dirs[..i][j].Known? && dirs[..i][j].modified == t;
      assert now[j].modified == t;
    }
  }

  /** getLatestTimesFromCFURLArray. */
  method LatestTime(dirs: seq<Stat>) returns (ok: bool, t: Time)
    ensures ok <==> AllKnown(dirs)
    ensures ok ==> Latest(dirs, t)
    ensures ok ==> forall i :: 0 <= i < |dirs| ==>
      dirs[i].modified.sec < t.sec || (dirs[i].modified.sec == t.sec && dirs[i].modified.usec <= t.usec)
  {
    t := Time(0, 0);
    for i := 0 to |dirs|
      invariant AllKnown(dirs[..i]) && Latest(dirs[..i], t)
    {
      assert dirs[..i + 1][i] == dirs[i];
      match dirs[i] {
        case Unknown => return false, t;
        case Known(m) =>
          LatestNext(dirs, i, t);
          if Later(m, t) { t := m; }
      }
    }
    assert dirs[..|dirs|] == dirs;
    LatestMeans(dirs, t);
    ok := true;
  }

  /** In numbers: one second later than one of the folders, the kernel or zero, and than none of those before it. */
  ghost predicate OneSecondLater(t: Time, kernel: Time, dirs: seq<Stat>) {
    && (t == Time(kernel.sec + 1, kernel.usec) || t == Time(1, 0)
        || exists i :: 0 <= i < |dirs| && dirs[i] == Known(Time(t.sec - 1, t.usec)))
    && (kernel.sec < t.sec - 1 || (kernel.sec == t.sec - 1 && kernel.usec <= t.usec))
    && forall i :: 0 <= i < |dirs| && dirs[i].Known? ==>
      dirs[i].modified.sec < t.sec - 1 || (dirs[i].modified.sec == t.sec - 1 && dirs[i].modified.usec <= t.usec)
  }

  /** getExpectedPrelinkedKernelModTime; extensions and kernelBefore are the times noted when the build started. */
  method ExpectedModTime(extensions: Time, kernelBefore: Time, dirs: seq<Stat>, kernel: Stat) returns (r: Expected)
    ensures r.NoTime? <==> extensions.sec == 0 || kernelBefore.sec == 0
    ensures r.Failed? <==> !r.NoTime? && (!AllKnown(dirs) || kernel.Unknown?)
    ensures r.Stale? <==> !r.NoTime? && !r.Failed? && kernel.modified != kernelBefore
    ensures r.ModTime? ==>
      exists e :: Latest(dirs, e) && r.time == Bumped(if Later(kernel.modified, e) then kernel.modified else e)
    ensures r.ModTime? ==> OneSecondLater(r.time, kernel.modified, dirs)
  {
    if extensions.sec == 0 || kernelBefore.sec == 0 { return NoTime; }
    var ok, latest := LatestTime(dirs);
    if !ok { return Failed; }
    LatestMeans(dirs, latest);
    var kextTime := latest.(sec := latest.sec + 1);
    if kernel.Unknown? { return Failed; }
    if kernelBefore != kernel.modified { return Stale; }
    var kernelTime := kernel.modified.(sec := kernel.modified.sec + 1);
    var cacheTime := kextTime;
    if Later(kernelTime, kextTime) { cacheTime := kernelTime; }
    r := ModTime(cacheTime);
  }

  /** The second that the check expects of the folders: one more than the latest. */
  ghost predicate ValidFor(dirs: seq<Stat>, valid: int) {
    && valid >= 0 && (forall i :: 0 <= i < |dirs| && dirs[i].Known? ==> dirs[i].modified.sec + 1 <= valid)
    && (valid == 0 || exists i :: 0 <= i < |dirs| && dirs[i].Known? && dirs[i].modified.sec + 1 == valid)
  }

  lemma ValidNext(dirs: seq<Stat>, i: nat, valid: int)
    requires i < |dirs| && ValidFor(dirs[..i], valid)
    ensures var next := if dirs[i].Known? then dirs[i].modified.sec + 1 else 0;
      ValidFor(dirs[..i + 1], if next > valid then next else valid)
  {
    var now := dirs[..i + 1];
    assert now[i] == dirs[i];
    forall j | 0 <= j < i ensures now[j] == dirs[..i][j] {}
    if valid != 0 {
      var j :| 0 <= j < i && dirs[..i][j].Known? && dirs[..i][j].modified.sec + 1 == valid;
      assert now[j].modified.sec + 1 == valid;
    }
  }

  /** check_kext_boot_cache_file: whether the cache file, and the immutable one if there is one, must be rebuilt.
      There may be no kernel to check against; a folder that cannot be statted is passed over. */
  method NeedsRebuild(dirs: seq<Stat>, kernel: Option<Stat>, cache: Option<Stat>, immutable: Option<Stat>)
    returns (rebuild: bool)
    ensures cache == None ==> !rebuild
    ensures kernel == Some(Unknown) ==> !rebuild
    ensures cache.Some? && kernel != Some(Unknown) ==>
      exists valid :: ValidFor(dirs, valid)
        && (!rebuild <==> AllAccepted(Expecting(valid, kernel), cache.value, immutable))
    ensures cache.Some? && kernel == None ==>
      exists valid :: ValidFor(dirs, valid)
        && (!rebuild <==>
            && cache.value.Known? && cache.value.modified.sec == valid
            && (immutable == None || (immutable.value.Known? && immutable.value.modified.sec == valid)))
  {
    if cache == None { return false; }
    var validModtime := 0;
    for i := 0 to |dirs|
      invariant ValidFor(dirs[..i], validModtime)
    {
      ValidNext(dirs, i, validModtime);
      match dirs[i] {
        case Known(m) => if m.sec + 1 > validModtime { validModtime := m.sec + 1; }
        case Unknown =>
      }
    }
    assert dirs[..|dirs|] == dirs;
    ghost var valid := validModtime;
    match kernel {
      case Some(Unknown) => return false;
      case Some(Known(m)) => if m.sec > validModtime { validModtime := m.sec + 1; }
      case None =>
    }
    assert validModtime == Expecting(valid, kernel);
    match cache.value {
      case Unknown => return true;
      case Known(m) => if m.sec != validModtime { return true; }
    }
    match immutable {
      case None => rebuild := false;
      case Some(Unknown) => rebuild := true;
      case Some(Known(m)) => rebuild := m.sec != validModtime;
    }
  }

  function Expecting(valid: int, kernel: Option<Stat>): int {
    match kernel
    case Some(Known(k)) => if k.sec > valid then k.sec + 1 else valid
    case _ => valid
  }

  predicate Accepts(valid: int, file: Stat) { file.Known? && file.modified.sec == valid }

  predicate AllAccepted(valid: int, cache: Stat, immutable: Option<Stat>) {
    Accepts(valid, cache) && (immutable.Some? ==> Accepts(valid, immutable.value))
  }

  /** Some folder was changed in 1970 or later. */
  predicate SomeTime(dirs: seq<Stat>) {
    exists i :: 0 <= i < |dirs| && dirs[i].Known? && dirs[i].modified.sec >= 0
  }

  lemma ValidIsLatest(dirs: seq<Stat>, e: Time, valid: int)
    requires Latest(dirs, e) && ValidFor(dirs, valid)
    ensures if SomeTime(dirs) then valid == e.sec + 1 else e == Time(0, 0) && valid == 0
  {
    if SomeTime(dirs) {
      var n :| 0 <= n < |dirs| && dirs[n].Known? && dirs[n].modified.sec >= 0;
      assert dirs[n].modified.sec + 1 <= valid;
      var i :| 0 <= i < |dirs| && dirs[i].Known? && dirs[i].modified.sec + 1 == valid;
      assert !Later(dirs[i].modified, e);
      if e != Time(0, 0) {
        var j :| 0 <= j < |dirs| && dirs[j].Known? && dirs[j].modified == e;
        assert dirs[j].modified.sec + 1 <= valid;
      }
    }
  }

  /** The builder's time is a second after the later of the folders and the kernel, and the check accepts it exactly
      when the kernel is not one second later than the folders; without a folder, or with none since 1970, when
      the kernel is later than the start of 1970. */
  lemma Agreement(dirs: seq<Stat>, e: Time, k: Time, valid: int)
    requires Latest(dirs, e) && ValidFor(dirs, valid)
    ensures var built := if Later(k, e) then Bumped(k) else Bumped(e);
      && built.sec == (if k.sec > e.sec then k.sec else e.sec) + 1
      && (Accepts(Expecting(valid, Some(Known(k))), Known(built)) <==>
          if SomeTime(dirs) then k.sec != e.sec + 1 else k.sec > 0)
  {
    ValidIsLatest(dirs, e, valid);
  }

  /** Builds a cache and checks it, while folders and kernel stay as they are, beside an immutable kernel if there is
      one: the new cache is taken for old exactly when the kernel is one second newer than the latest folder, or there
      is no folder to say and the kernel is older than 1970, or the immutable kernel is not of the second of the
      cache. */
  method BuildAndCheck(extensions: Time, dirs: seq<Stat>, k: Time, immutable: Option<Stat>)
    returns (built: Expected, rebuild: bool)
    ensures built.NoTime? <==> extensions.sec == 0 || k.sec == 0
    ensures built.Failed? <==> !built.NoTime? && !AllKnown(dirs)
    ensures !built.Stale?
    ensures built.ModTime? ==>
      exists e :: Latest(dirs, e) && built.time.sec == (if k.sec > e.sec then k.sec else e.sec) + 1
        && (rebuild <==>
            || (if SomeTime(dirs) then k.sec == e.sec + 1 else k.sec < 0)
            || (immutable.Some? && !(immutable.value.Known? && immutable.value.modified.sec == built.time.sec)))
  {
    rebuild := false;
    built := ExpectedModTime(extensions, k, dirs, Known(k));
    if built.ModTime? {
      ghost var e :| Latest(dirs, e) && built.time == Bumped(if Later(k, e) then k else e);
      rebuild := NeedsRebuild(dirs, Some(Known(k)), Some(Known(built.time)), immutable);
      ghost var valid :| ValidFor(dirs, valid)
        && (!rebuild <==> AllAccepted(Expecting(valid, Some(Known(k))), Known(built.time), immutable));
      Agreement(dirs, e, k, valid);
    }
  }
}
