/** The units the encoder cuts a source into: what they are, what they stand for and how long their
    code is. */
module LzssParse {
  import opened LzssKeys
  import opened LzssFormat
  import opened LzssWindow

  ghost function UnitLength(u: Unit): int {
    if u.Literal? then 1 else u.length
  }

  /** u is the unit for position pos: the longest match the encoder finds there, when it is longer than
      the threshold, and the byte itself when it is not. */
  ghost predicate UnitFits(src: seq<byte>, pos: nat, u: Unit)
    requires pos < |src|
  {
    match u
    case Literal(b) => Found(src, pos) <= THRESHOLD && b == src[pos]
    case Pair(p, n) =>
      && n == Found(src, pos) > THRESHOLD
      && exists q :: First(pos) <= q < pos && Slot(q) == p && MatchLen(src, pos, q) == n
  }

  /** us cut the first `to` bytes of the source. */
  ghost predicate Parses(src: seq<byte>, us: seq<Unit>, to: int) {
    if us == [] then to == 0
    else
      var u := us[|us| - 1];
      var from := to - UnitLength(u);
      0 <= from < |src| && Parses(src, us[..|us| - 1], from) && UnitFits(src, from, u)
  }

  lemma ParsesAppend(src: seq<byte>, us: seq<Unit>, pos: nat, u: Unit)
    requires Parses(src, us, pos) && pos < |src| && UnitFits(src, pos, u)
    ensures Parses(src, us + [u], pos + UnitLength(u)) && UnitOk(u)
  {
    assert (us + [u])[..|us|] == us;
  }

  lemma {:induction false} ParsesOk(src: seq<byte>, us: seq<Unit>, to: int)
    requires Parses(src, us, to)
    ensures UnitsOk(us) && 0 <= to <= |src|
  {
    if us != [] {
      ParsesOk(src, us[..|us| - 1], to - UnitLength(us[|us| - 1]));
      assert forall k :: 0 <= k < |us| - 1 ==> us[k] == us[..|us| - 1][k];
    }
  }

  // ---- what the units stand for ----

  /** The text a match stands for repeats the text it matches. */
  lemma MatchIsCopy(stale: seq<byte>, src: seq<byte>, pos: nat, q: int, n: nat)
    requires |stale| == F && pos <= |src| && -F <= q < pos && n <= MatchLen(src, pos, q)
    requires pos - q <= N
    ensures pos + n <= |src| && IsCopy(History(stale) + src[..pos], pos - q, n, History(stale) + src[..pos + n])
  {
    var l, k := Lookahead(src, pos), MatchLen(src, pos, q);
    var h, h' := History(stale) + src[..pos], History(stale) + src[..pos + n];
    assert h <= h' by { assert h'[..|h|] == h; }
    forall m | |h| <= m < |h'| ensures h'[m] == h'[m - (pos - q)] {
      var i := m - |h|;
      assert Text(src, pos, l)[i] == Text(src, pos, l)[..k][i] == Text(src, q, l)[..k][i] == Text(src, q, l)[i];
      assert h'[N + q + i] == Hist(src, q + i);
    }
  }

  /** A unit applied to the text up to its position gives the text up to its end. */
  lemma UnitMeans(stale: seq<byte>, src: seq<byte>, pos: nat, u: Unit)
    requires |stale| == F && pos < |src| && UnitFits(src, pos, u)
    ensures UnitOk(u) && pos + UnitLength(u) <= |src|
    ensures Apply(History(stale) + src[..pos], u) == History(stale) + src[..pos + UnitLength(u)]
  {
    hide MatchLen, History, CopyRun, Ahead, Slot;
    if u.Pair? {
      var q :| First(pos) <= q < pos && Slot(q) == u.position && MatchLen(src, pos, q) == u.length;
      PairMeans(stale, src, pos, q, u.length);
    } else {
      assert src[..pos + 1] == src[..pos] + [src[pos]];
    }
  }

  lemma PairMeans(stale: seq<byte>, src: seq<byte>, pos: nat, q: int, n: nat)
    requires |stale| == F && pos < |src| && UnitFits(src, pos, Pair(Slot(q), n))
    requires First(pos) <= q < pos && MatchLen(src, pos, q) == n
    ensures UnitOk(Pair(Slot(q), n)) && pos + n <= |src|
    ensures Apply(History(stale) + src[..pos], Pair(Slot(q), n)) == History(stale) + src[..pos + n]
  {
    hide MatchLen, CopyRun, IsCopy, Ahead, Slot, Found;
    var h := History(stale) + src[..pos];
    MatchIsCopy(stale, src, pos, q, n);
    BackOf(pos, q);
    CopyRunIsCopy(h, |h| - (pos - q), n);
    CopyUnique(h, pos - q, n, History(stale) + src[..pos + n], CopyRun(h, |h| - (pos - q), n));
  }

  lemma BackOf(pos: nat, q: int)
    requires First(pos) <= q < pos
    ensures N - Ahead(Slot(q), Slot(N + pos)) == pos - q <= N
  {
  }

  /** One more unit applied after the others. */
  lemma ExpandSnoc(h: seq<byte>, us: seq<Unit>, u: Unit)
    requires |h| >= N && UnitsOk(us) && UnitOk(u)
    ensures UnitsOk(us + [u]) && Expand(h, us + [u]) == Apply(Expand(h, us), u)
  {
    hide Apply;
    ExpandAppend(h, us, [u]);
    ExpandCons(Expand(h, us), u, []);
    assert [u] + [] == [u];
  }

  /** The units of a source expand to the source, whatever the ring held before. */
  lemma {:induction false} ParsesMeans(stale: seq<byte>, src: seq<byte>, us: seq<Unit>, to: int)
    requires |stale| == F && Parses(src, us, to)
    ensures UnitsOk(us) && 0 <= to <= |src| && Expand(History(stale), us) == History(stale) + src[..to]
  {
    hide Apply, UnitFits;
    ParsesOk(src, us, to);
    if us != [] {
      var init, u := us[..|us| - 1], us[|us| - 1];
      var from := to - UnitLength(u);
      ParsesMeans(stale, src, init, from);
      UnitMeans(stale, src, from, u);
      ExpandSnoc(History(stale), init, u);
      assert us == init + [u];
    }
  }

  // ---- how long their code is ----

  ghost function Step(src: seq<byte>, pos: nat): (n: nat)
    requires pos < |src|
    ensures 1 <= n <= |src| - pos
  {
    if Found(src, pos) <= THRESHOLD then 1 else Found(src, pos)
  }

  /** How many units the source from pos on is cut into. */
  ghost function UnitCount(src: seq<byte>, pos: nat): (n: nat)
    requires pos <= |src|
    ensures n <= |src| - pos
    decreases |src| - pos
  {
    if pos == |src| then 0 else 1 + UnitCount(src, pos + Step(src, pos))
  }

  /** How many bytes those units take, without the flags. */
  ghost function BodySize(src: seq<byte>, pos: nat): (n: nat)
    requires pos <= |src|
    ensures n <= |src| - pos
    decreases |src| - pos
  {
    if pos == |src| then 0
    else (if Found(src, pos) <= THRESHOLD then 1 else 2) + BodySize(src, pos + Step(src, pos))
  }

  /** The length of the code of a source: its units, and a flag byte for each eight of them. */
  ghost function CompressedSize(src: seq<byte>): (n: nat)
    ensures n <= |src| + (|src| + 7) / 8
  {
    BodySize(src, 0) + (UnitCount(src, 0) + 7) / 8
  }

  /** No source grows by more than a flag byte for each eight of its bytes. */
  lemma CompressedSizeBound(src: seq<byte>)
    ensures CompressedSize(src) <= |src| + (|src| + 7) / 8
  {
  }

  /** How many bytes shorter than what they stand for the pairs are. */
  ghost function Saved(src: seq<byte>, pos: nat): (n: nat)
    requires pos <= |src|
    decreases |src| - pos
  {
    if pos == |src| then 0
    else (if Found(src, pos) <= THRESHOLD then 0 else Found(src, pos) - 2) + Saved(src, pos + Step(src, pos))
  }

  ghost function FlagBytes(src: seq<byte>): nat { (UnitCount(src, 0) + 7) / 8 }

  lemma {:induction false} SavedIs(src: seq<byte>, pos: nat)
    requires pos <= |src|
    ensures BodySize(src, pos) + Saved(src, pos) == |src| - pos
    decreases |src| - pos
  {
    if pos < |src| { SavedIs(src, pos + Step(src, pos)); }
  }

  lemma {:induction false} NothingSaved(src: seq<byte>, pos: nat)
    requires pos <= |src| && forall p :: pos <= p < |src| ==> Found(src, p) <= THRESHOLD
    ensures Saved(src, pos) == 0 && UnitCount(src, pos) == |src| - pos
    decreases |src| - pos
  {
    if pos < |src| { NothingSaved(src, pos + 1); }
  }

  lemma {:induction false} CodeSize(us: seq<Unit>)
    requires UnitsOk(us)
    ensures |Code(us)| == |BodyBytes(us)| + (|us| + 7) / 8
    decreases |us|
  {
    if |us| > 8 {
      CodeSize(us[8..]);
      BodyLength(us[..8], us[8..]);
      assert us == us[..8] + us[8..];
    }
  }

  lemma NoBody()
    ensures BodyBytes([]) == []
  {
  }

  lemma {:induction false} BodyLength(us: seq<Unit>, vs: seq<Unit>)
    requires UnitsOk(us) && UnitsOk(vs)
    ensures UnitsOk(us + vs) && |BodyBytes(us + vs)| == |BodyBytes(us)| + |BodyBytes(vs)|
    decreases |vs|
  {
    hide BodyBytes;
    if vs == [] {
      NoBody();
      assert us + vs == us;
    } else {
      var n := |vs| - 1;
      BodyLength(us, vs[..n]);
      BodyAppend(us + vs[..n], vs[n]);
      BodyAppend(vs[..n], vs[n]);
      assert vs == vs[..n] + [vs[n]] && us + vs == (us + vs[..n]) + [vs[n]];
    }
  }

  /** us cut the source up to pos, and what is left of it accounts for the rest of its size. */
  ghost predicate Emitted(src: seq<byte>, us: seq<Unit>, pos: nat) {
    && pos <= |src| && UnitsOk(us) && Parses(src, us, pos)
    && |us| + UnitCount(src, pos) == UnitCount(src, 0)
    && |BodyBytes(us)| + BodySize(src, pos) == BodySize(src, 0)
  }

  lemma EmittedAppend(src: seq<byte>, us: seq<Unit>, pos: nat, u: Unit)
    requires Emitted(src, us, pos) && pos < |src| && UnitFits(src, pos, u) && UnitLength(u) == Step(src, pos)
    ensures Emitted(src, us + [u], pos + Step(src, pos))
  {
    hide Parses, BodyBytes;
    ParsesAppend(src, us, pos, u);
    BodyAppend(us, u);
  }

  lemma EmittedFits(src: seq<byte>, us: seq<Unit>, pos: nat)
    requires Emitted(src, us, pos)
    ensures |Code(us)| <= CompressedSize(src)
    ensures pos == |src| ==> |Code(us)| == CompressedSize(src)
  {
    CodeSize(us);
  }

  /** The code of a source's units is decoded to the source. */
  lemma EmittedDecodes(src: seq<byte>, us: seq<Unit>, stale: seq<byte>)
    requires Emitted(src, us, |src|) && |stale| == F
    ensures Decoded(stale, Code(us)) == src
  {
    CodeReadBack(us);
    ParsesMeans(stale, src, us, |src|);
    assert src[..|src|] == src;
  }
}
