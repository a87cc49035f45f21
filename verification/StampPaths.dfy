/** The names of stamp files. */
module StampPaths {
  import opened Values
  import BootStamps

  const NUL: char := '\0'

  /** s with every old replaced. */
  function Replaced(s: string, from: char, to: char): (r: string)
    ensures |r| == |s| && forall i :: 0 <= i < |s| ==> r[i] == if s[i] == from then to else s[i]
  {
    seq(|s|, i requires 0 <= i < |s| => if s[i] == from then to else s[i])
  }

  /** gsub, on a string that ends with NUL. */
  method Gsub(from: char, to: char, s: array<char>, ghost end: nat)
    requires end < s.Length && s[end] == NUL && forall i :: 0 <= i < end ==> s[i] != NUL
    modifies s
    ensures s[..end] == Replaced(old(s[..end]), from, to) && s[end..] == old(s[end..])
  {
    var p := 0;
    while s[p] != NUL
      invariant 0 <= p <= end
      invariant forall i :: 0 <= i < p ==> s[i] == if old(s[i]) == from then to else old(s[i])
      invariant forall i :: p <= i < s.Length ==> s[i] == old(s[i])
      decreases end - p
    {
      if s[p] == from { s[p] := to; }
      p := p + 1;
    }
  }

  const PATH_MAX: nat := 128
  const NAME_MAX: nat := 255
  const TSPATH_MAX: nat := PATH_MAX + 1 + 37 + 1 + PATH_MAX

  /** The stamp of a source, below the volume's directory in the directory of all stamps. */
  function StampPath(dir: string, uuid: string, rpath: string): string {
    dir + "/" + uuid + "/" + Replaced(rpath, '/', ':')
  }

  /** The directory, '/', the UUID and '/', in that order, then the source with ':' for each '/'. */
  predicate IsStampPath(path: string, dir: string, uuid: string, rpath: string) {
    && |path| == |dir| + |uuid| + |rpath| + 2 && path[..|dir|] == dir && path[|dir|] == '/'
    && path[|dir| + 1..|dir| + 1 + |uuid|] == uuid && path[|dir| + 1 + |uuid|] == '/'
    && forall i :: 0 <= i < |rpath| ==>
      path[|dir| + |uuid| + 2 + i] == if rpath[i] == '/' then ':' else rpath[i]
  }

  lemma StampPathParts(dir: string, uuid: string, rpath: string)
    ensures IsStampPath(StampPath(dir, uuid, rpath), dir, uuid, rpath)
  {
  }

  /** MAKE_CACHEDPATH: the stamp path of a source, if both fit their buffers. */
  method MakeCachedPath(rpath: string, dir: string, uuid: string) returns (tspath: Option<string>)
    requires NUL !in rpath
    ensures tspath == if |rpath| < PATH_MAX && |StampPath(dir, uuid, rpath)| < TSPATH_MAX
      then Some(StampPath(dir, uuid, rpath)) else None
    ensures tspath.Some? <==> |rpath| < 128 && |dir| + |uuid| + |rpath| + 2 < 295
    ensures tspath.Some? ==> IsStampPath(tspath.value, dir, uuid, rpath)
    ensures |dir| == 43 && |uuid| == 36 ==> (tspath.Some? <==> |rpath| < 128)
  {
    StampPathParts(dir, uuid, rpath);
    hide IsStampPath;
    if |dir| == 43 && |uuid| == 36 && |rpath| < PATH_MAX { StampPathFits(dir, uuid, rpath); }
    if |rpath| >= PATH_MAX { return None; }
    if |rpath| >= NAME_MAX { return None; }
    var tsname := new char[|rpath| + 1](i requires 0 <= i <= |rpath| => if i < |rpath| then rpath[i] else NUL);
    assert tsname[..|rpath|] == rpath;
    Gsub('/', ':', tsname, |rpath|);
    var full := dir + "/" + uuid + "/" + tsname[..|rpath|];
    if |full| >= TSPATH_MAX { return None; }
    tspath := Some(full);
  }

  /** With a directory of 43 characters and a UUID of 36 the stamp path always fits. */
  lemma StampPathFits(dir: string, uuid: string, rpath: string)
    requires |dir| == 43 && |uuid| == 36 && |rpath| < PATH_MAX
    ensures |StampPath(dir, uuid, rpath)| < TSPATH_MAX
  {
  }

  /** Two sources share a stamp exactly when they differ only in having '/' where the other has ':'. */
  lemma SameStamp(dir: string, uuid: string, a: string, b: string)
    ensures StampPath(dir, uuid, a) == StampPath(dir, uuid, b) <==>
      |a| == |b| && forall i :: 0 <= i < |a| ==> a[i] == b[i] || (a[i] in "/:" && b[i] in "/:")
  {
    var volume := dir + "/" + uuid + "/";
    var x, y := Replaced(a, '/', ':'), Replaced(b, '/', ':');
    if StampPath(dir, uuid, a) == StampPath(dir, uuid, b) {
      assert x == StampPath(dir, uuid, a)[|volume|..] == y;
    }
    if |a| == |b| && forall i :: 0 <= i < |a| ==> a[i] == b[i] || (a[i] in "/:" && b[i] in "/:") {
      assert x == y;
    }
  }

  /** So paths without ':' have stamps of their own. */
  lemma DistinctStamps(dir: string, uuid: string, a: string, b: string)
    requires ':' !in a && ':' !in b && a != b
    ensures StampPath(dir, uuid, a) != StampPath(dir, uuid, b)
  {
    SameStamp(dir, uuid, a, b);
    assert |a| == |b| && (forall i :: 0 <= i < |a| ==> a[i] == b[i]) ==> a == b;
  }

  /** The cached paths of a volume are told apart by their sources. */
  lemma DistinctSources(dir: string, uuid: string, ps: seq<BootStamps.CachedPath>)
    requires forall i :: 0 <= i < |ps| ==> ':' !in ps[i].rpath && ps[i].tspath == StampPath(dir, uuid, ps[i].rpath)
    requires forall i, j :: 0 <= i < j < |ps| ==> ps[i].rpath != ps[j].rpath
    ensures BootStamps.DistinctPaths(ps)
  {
    hide StampPath;
    forall i, j | 0 <= i < j < |ps| ensures ps[i] != ps[j] && ps[i].tspath != ps[j].tspath {
      DistinctStamps(dir, uuid, ps[i].rpath, ps[j].rpath);
    }
  }
}
