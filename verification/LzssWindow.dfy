/** How the text buffer and the search trees of the encoder relate to the source text.

    Positions of the source are counted from 0; the spaces the buffer starts with stand before it, at
    negative positions. */
module LzssWindow {
  import opened LzssKeys
  import opened LzssFormat
  import opened LzssEncodeState

  /** The byte at position j of the source, or a space before its start. */
  ghost function Hist(src: seq<byte>, j: int): byte
    requires j < |src|
  {
    if j < 0 then SPACE else src[j]
  }

  /** The oldest position the trees may hold when position pos is inserted. */
  ghost function First(pos: nat): int {
    if pos - (N - F) > -F then pos - (N - F) else -F
  }

  /** How many bytes are left to match at pos. */
  ghost function Lookahead(src: seq<byte>, pos: nat): (n: nat)
    requires pos <= |src|
    ensures n <= F && pos + n <= |src|
  {
    if |src| - pos < F then |src| - pos else F
  }

  /** The n bytes from position j on. */
  ghost function Text(src: seq<byte>, j: int, n: nat): (s: seq<byte>)
    requires j + n <= |src|
    ensures |s| == n && forall i :: 0 <= i < n ==> s[i] == Hist(src, j + i)
  {
    seq<byte>(n, i requires 0 <= i < n => Hist(src, j + i))
  }

  /** The length of the match at pos with the text from q on. */
  ghost function MatchLen(src: seq<byte>, pos: nat, q: int): (n: nat)
    requires q < pos <= |src|
    ensures n <= Lookahead(src, pos)
  {
    Lcp(Text(src, pos, Lookahead(src, pos)), Text(src, q, Lookahead(src, pos)))
  }

  // ---- the text buffer ----

  /** The ring holds the byte at j, and so does its copy behind the ring if it was put in one of the
      first F-1 places. */
  ghost predicate HoldsAt(t: seq<byte>, src: seq<byte>, j: int)
    requires IsText(t) && j < |src|
  {
    t[Slot(j)] == Hist(src, j) && (F <= j && Slot(j) < F - 1 ==> t[N + Slot(j)] == src[j])
  }

  /** The buffer after `read` bytes of the source holds the last N bytes. */
  ghost predicate Holds(t: seq<byte>, src: seq<byte>, read: nat) {
    && IsText(t) && read <= |src|
    && forall j {:trigger HoldsAt(t, src, j)} :: read - N <= j < read && -(N - F) <= j ==> HoldsAt(t, src, j)
  }

  lemma SlotInjective(a: int, b: int)
    requires Slot(a) == Slot(b) && -N < a - b < N
    ensures a == b
  {
  }

  lemma SlotPlus(j: int, i: nat)
    requires i < F
    ensures Slot(j + i) == if Slot(j) + i < N then Slot(j) + i else Slot(j) + i - N
  {
  }

  /** The string at a position of the window, as far as it has been read, is the source's. */
  lemma KeyByte(t: seq<byte>, src: seq<byte>, read: nat, q: int, i: nat)
    requires Holds(t, src, read) && read - N <= q && -(N - F) <= q && i < F && q + i < read
    ensures Key(t, Slot(q))[i] == Hist(src, q + i)
  {
    SlotPlus(q, i);
    assert HoldsAt(t, src, q + i);
    if Slot(q) + i >= N { WrapsLate(q, i); }
  }

  lemma WrapsLate(q: int, i: nat)
    requires -(N - F) <= q && i < F && Slot(q) + i >= N
    ensures q + i >= F
  {
  }

  /** A byte put in the ring, and behind it when it is one of the first F-1. */
  ghost function PutByte(t: seq<byte>, s: int, c: byte): (t': seq<byte>)
    requires IsText(t) && 0 <= s < N
    ensures IsText(t')
  {
    if s < F - 1 then t[s := c][s + N := c] else t[s := c]
  }

  lemma PutByteHolds(t: seq<byte>, src: seq<byte>, read: nat)
    requires Holds(t, src, read) && F <= read < |src|
    ensures Holds(PutByte(t, Slot(read), src[read]), src, read + 1)
  {
    var t' := PutByte(t, Slot(read), src[read]);
    forall j | read + 1 - N <= j < read + 1 && -(N - F) <= j ensures HoldsAt(t', src, j) {
      if j < read {
        assert HoldsAt(t, src, j);
        if Slot(j) == Slot(read) { SlotInjective(j, read); }
      }
    }
  }

  /** No string that starts in the window changes when the next byte is put in the ring. */
  lemma PutByteKeepsKeys(t: seq<byte>, read: nat, c: byte, q: int)
    requires IsText(t) && read - N < q <= read - F
    ensures Key(PutByte(t, Slot(read), c), Slot(q)) == Key(t, Slot(q))
  {
    var t' := PutByte(t, Slot(read), c);
    forall i | 0 <= i < F ensures Key(t', Slot(q))[i] == Key(t, Slot(q))[i] {
      SlotPlus(q, i);
      if Slot(q + i) == Slot(read) { SlotInjective(q + i, read); }
    }
  }

  // ---- the positions in the trees ----

  ghost function Spaces(): (s: seq<byte>)
    ensures |s| == F && forall i :: 0 <= i < F ==> s[i] == SPACE
  {
    seq<byte>(F, _ => SPACE)
  }

  /** A string before the start of the source that is all spaces.  The first strings are inserted from
      the newest to the oldest, so such a string loses its node to an older one. */
  ghost predicate Forgettable(t: seq<byte>, q: int)
    requires IsText(t)
  {
    -F < q < 0 && Key(t, Slot(q)) == Spaces()
  }

  /** A string equal to that at q, and no older, is in the trees. */
  ghost predicate Covered(ps: set<int>, t: seq<byte>, q: int, hi: int)
    requires IsText(t)
  {
    exists q' :: q <= q' <= hi && Slot(q') in ps && Key(t, Slot(q')) == Key(t, Slot(q))
  }

  ghost predicate Differ(t: seq<byte>, p: int, p': int)
    requires IsText(t)
  {
    0 <= p < N && 0 <= p' < N && Key(t, p) != Key(t, p')
  }

  ghost predicate AllDiffer(ps: set<int>, t: seq<byte>)
    requires IsText(t)
  {
    forall p, p' {:trigger Differ(t, p, p')} :: p in ps && p' in ps && p != p' ==> Differ(t, p, p')
  }

  /** ps are positions lo..hi of the source, no two with equal strings. */
  ghost predicate InWindow(ps: set<int>, t: seq<byte>, lo: int, hi: int)
    requires IsText(t)
  {
    && (forall p :: p in ps ==> 0 <= p < N && exists q :: lo <= q <= hi && Slot(q) == p)
    && AllDiffer(ps, t)
  }

  /** Of the positions lo..hi, all inserted and none deleted, ps are in the trees: each string is covered
      unless it is forgettable, and no forgettable one is in the trees. */
  ghost predicate Tracks(ps: set<int>, t: seq<byte>, lo: int, hi: int)
    requires IsText(t)
  {
    && InWindow(ps, t, lo, hi)
    && (forall q {:trigger Covered(ps, t, q, hi)} :: lo <= q <= hi ==> Forgettable(t, q) || Covered(ps, t, q, hi))
    && (forall q {:trigger Forgettable(t, q)} :: lo <= q <= hi && Slot(q) in ps ==> !Forgettable(t, q))
  }

  lemma TracksDelete(ps: set<int>, t: seq<byte>, lo: int, hi: int)
    requires IsText(t) && lo <= hi && hi - lo < N && Tracks(ps, t, lo, hi)
    ensures Tracks(ps - {Slot(lo)}, t, lo + 1, hi)
  {
    var ps' := ps - {Slot(lo)};
    forall p, p' | p in ps' && p' in ps' && p != p' ensures Differ(t, p, p') {}
    forall p | p in ps' ensures exists q :: lo + 1 <= q <= hi && Slot(q) == p {
      var q :| lo <= q <= hi && Slot(q) == p;
    }
    forall q | lo + 1 <= q <= hi ensures Forgettable(t, q) || Covered(ps', t, q, hi) {
      if !Forgettable(t, q) {
        assert Covered(ps, t, q, hi);
        var q' :| q <= q' <= hi && Slot(q') in ps && Key(t, Slot(q')) == Key(t, Slot(q));
        if Slot(q') == Slot(lo) { SlotInjective(q', lo); }
        assert Slot(q') in ps';
      }
    }
  }

  lemma TracksKeep(ps: set<int>, t: seq<byte>, t': seq<byte>, lo: int, hi: int)
    requires IsText(t) && IsText(t') && Tracks(ps, t, lo, hi)
    requires forall q :: lo <= q <= hi ==> Key(t', Slot(q)) == Key(t, Slot(q))
    ensures Tracks(ps, t', lo, hi)
  {
    forall p | p in ps ensures Key(t', p) == Key(t, p) {
      var q :| lo <= q <= hi && Slot(q) == p;
    }
    forall p, p' | p in ps && p' in ps && p != p' ensures Differ(t', p, p') {
      assert Differ(t, p, p');
    }
    forall q | lo <= q <= hi ensures Forgettable(t', q) || Covered(ps, t', q, hi) {
      if !Forgettable(t, q) {
        assert Covered(ps, t, q, hi);
        var q' :| q <= q' <= hi && Slot(q') in ps && Key(t, Slot(q')) == Key(t, Slot(q));
        assert Key(t', Slot(q')) == Key(t', Slot(q));
      }
    }
    forall q | lo <= q <= hi && Slot(q) in ps ensures !Forgettable(t', q) {
      assert !Forgettable(t, q);
    }
  }

  /** The positions in the trees after InsertNode has linked position j. */
  ghost function Inserted(ps: set<int>, j: int, mp: int, ml: int): set<int> {
    ps + {Slot(j)} - (if ml == F then {mp} else {})
  }

  /** After an insertion no two strings in the trees are equal, and every string that was there still is. */
  lemma InsertKeepsStrings(ps: set<int>, t: seq<byte>, lo: int, hi: int, j: int, mp: int, ml: int)
    requires IsText(t) && InWindow(ps, t, lo, hi) && Slot(j) !in ps && LongestMatch(t, Slot(j), ps, mp, ml)
    ensures var ps' := Inserted(ps, j, mp, ml);
      && Slot(j) in ps'
      && AllDiffer(ps', t)
      && (forall p :: p in ps && p !in ps' ==> 0 <= p < N && Key(t, p) == Key(t, Slot(j)))
  {
    var ps' := Inserted(ps, j, mp, ml);
    forall p | p in ps ensures Lcp(Key(t, Slot(j)), Key(t, p)) == F <==> Key(t, Slot(j)) == Key(t, p) {
      FirstDifferenceOrders(Key(t, Slot(j)), Key(t, p));
    }
    forall p, p' | p in ps' && p' in ps' && p != p' ensures Differ(t, p, p') {
      if p in ps && p' in ps {
        assert Differ(t, p, p');
      } else {
        var q := if p in ps then p else p';
        if ml == F && q != mp { assert Differ(t, q, mp); }
      }
    }
  }

  lemma CoveredInsert(ps: set<int>, t: seq<byte>, lo: int, hi: int, mp: int, ml: int, q: int)
    requires IsText(t) && InWindow(ps, t, lo, hi)
    requires Slot(hi + 1) !in ps && LongestMatch(t, Slot(hi + 1), ps, mp, ml)
    requires q <= hi && Covered(ps, t, q, hi)
    ensures Covered(Inserted(ps, hi + 1, mp, ml), t, q, hi + 1)
  {
    var ps', j := Inserted(ps, hi + 1, mp, ml), hi + 1;
    InsertKeepsStrings(ps, t, lo, hi, j, mp, ml);
    var q' :| q <= q' <= hi && Slot(q') in ps && Key(t, Slot(q')) == Key(t, Slot(q));
    if Slot(q') !in ps' {
      assert Slot(j) in ps' && Key(t, Slot(j)) == Key(t, Slot(q));
    }
  }

  lemma InWindowInsert(ps: set<int>, t: seq<byte>, lo: int, hi: int, mp: int, ml: int)
    requires IsText(t) && InWindow(ps, t, lo, hi) && lo <= hi + 1
    requires Slot(hi + 1) !in ps && LongestMatch(t, Slot(hi + 1), ps, mp, ml)
    ensures InWindow(Inserted(ps, hi + 1, mp, ml), t, lo, hi + 1) && Slot(hi + 1) in Inserted(ps, hi + 1, mp, ml)
  {
    var ps', j := Inserted(ps, hi + 1, mp, ml), hi + 1;
    InsertKeepsStrings(ps, t, lo, hi, j, mp, ml);
    forall p | p in ps' ensures 0 <= p < N && exists q :: lo <= q <= j && Slot(q) == p {
      if p in ps { var q :| lo <= q <= hi && Slot(q) == p; } else { assert Slot(j) == p; }
    }
  }

  lemma TracksInsert(ps: set<int>, t: seq<byte>, lo: int, hi: int, mp: int, ml: int)
    requires IsText(t) && Tracks(ps, t, lo, hi) && -1 <= hi && lo <= hi + 1 && hi + 1 - lo < N
    requires Slot(hi + 1) !in ps && LongestMatch(t, Slot(hi + 1), ps, mp, ml)
    ensures Tracks(Inserted(ps, hi + 1, mp, ml), t, lo, hi + 1)
  {
    var ps', j := Inserted(ps, hi + 1, mp, ml), hi + 1;
    InWindowInsert(ps, t, lo, hi, mp, ml);
    forall q | lo <= q <= j ensures Forgettable(t, q) || Covered(ps', t, q, j) {
      if q == j {
        assert Slot(j) in ps';
      } else if !Forgettable(t, q) {
        assert Covered(ps, t, q, hi);
        CoveredInsert(ps, t, lo, hi, mp, ml, q);
      }
    }
    forall q | lo <= q <= j && Slot(q) in ps' ensures !Forgettable(t, q) {
      if q < 0 {
        if Slot(q) == Slot(j) { SlotInjective(q, j); }
        assert Slot(q) in ps;
      }
    }
  }

  // ---- the first strings, inserted backwards ----

  /** The buffer when the source's first bytes, as many as fit, have been read. */
  ghost predicate Primed(t: seq<byte>) {
    IsText(t) && forall i :: 0 <= i < N - F ==> t[i] == SPACE
  }

  /** Positions lo..-1 have been inserted, the last first. */
  ghost predicate Priming(ps: set<int>, t: seq<byte>, lo: int)
    requires IsText(t)
  {
    && InWindow(ps, t, lo, -1) && (lo < 0 ==> Slot(lo) in ps)
    && (forall q {:trigger Covered(ps, t, q, -1)} :: lo <= q < 0 ==>
      Key(t, Slot(q)) == Spaces() || Covered(ps, t, q, -1))
  }

  /** Two equal strings among the first ones are all spaces: each repeats itself at their distance. */
  lemma EqualMeansSpaces(t: seq<byte>, a: int, b: int)
    requires Primed(t) && -F <= b < a < 0 && Key(t, Slot(a)) == Key(t, Slot(b))
    ensures Key(t, Slot(b)) == Spaces()
  {
    var k := Key(t, Slot(b));
    var i := 0;
    while i < F
      invariant 0 <= i <= F && forall m :: 0 <= m < i ==> k[m] == SPACE
    {
      if i < -b {
        assert k[i] == t[N - F + b + i];
      } else {
        assert k[i - (a - b)] == Key(t, Slot(a))[i - (a - b)] == t[N - F + b + i] == k[i];
      }
      i := i + 1;
    }
  }

  lemma PrimingStep(ps: set<int>, t: seq<byte>, lo: int, mp: int, ml: int)
    requires Primed(t) && -F < lo <= 0 && Priming(ps, t, lo)
    requires Slot(lo - 1) !in ps && LongestMatch(t, Slot(lo - 1), ps, mp, ml)
    ensures Priming(Inserted(ps, lo - 1, mp, ml), t, lo - 1)
  {
    var j := lo - 1;
    var ps' := Inserted(ps, j, mp, ml);
    InsertKeepsStrings(ps, t, lo, -1, j, mp, ml);
    assert InWindow(ps', t, j, -1) by {
      forall p | p in ps' ensures 0 <= p < N && exists q :: j <= q <= -1 && Slot(q) == p {
        if p in ps { var q :| lo <= q <= -1 && Slot(q) == p; } else { assert Slot(j) == p; }
      }
    }
    forall q | j <= q < 0 ensures Key(t, Slot(q)) == Spaces() || Covered(ps', t, q, -1) {
      if q == j {
        assert Slot(j) in ps';
      } else if Key(t, Slot(q)) != Spaces() {
        assert Covered(ps, t, q, -1);
        var q' :| q <= q' <= -1 && Slot(q') in ps && Key(t, Slot(q')) == Key(t, Slot(q));
        if Slot(q') !in ps' { EqualMeansSpaces(t, q', j); }
      }
    }
  }

  lemma PrimingDone(ps: set<int>, t: seq<byte>)
    requires Primed(t) && Priming(ps, t, -F)
    ensures Tracks(ps, t, -F, -1)
  {
    assert Key(t, Slot(-F)) == Spaces();
    forall q | -F <= q <= -1 ensures Forgettable(t, q) || Covered(ps, t, q, -1) {
      if q == -F { assert Slot(-F) in ps; }
    }
    forall q | -F <= q <= -1 && Slot(q) in ps ensures !Forgettable(t, q) {
      if q > -F {
        if Slot(q) == Slot(-F) { SlotInjective(q, -F); }
        assert Differ(t, Slot(q), Slot(-F));
      }
    }
  }

  // ---- the longest match, and when the encoder misses it ----

  /** m is the length of the longest match at pos with a text that starts at lo or later. */
  ghost predicate IsBest(src: seq<byte>, pos: nat, lo: int, m: nat)
    requires pos <= |src|
  {
    && (forall q :: lo <= q < pos ==> MatchLen(src, pos, q) <= m)
    && (exists q :: lo <= q < pos && MatchLen(src, pos, q) == m)
  }

  lemma {:induction false} BestExists(src: seq<byte>, pos: nat, lo: int)
    requires lo < pos <= |src|
    ensures exists m: nat :: IsBest(src, pos, lo, m)
    decreases pos - lo
  {
    var here := MatchLen(src, pos, lo);
    if lo + 1 == pos {
      assert IsBest(src, pos, lo, here);
    } else {
      BestExists(src, pos, lo + 1);
      var m: nat :| IsBest(src, pos, lo + 1, m);
      assert IsBest(src, pos, lo, if here > m then here else m);
    }
  }

  /** The longest match at pos with a text that starts in the window. */
  ghost function Best(src: seq<byte>, pos: nat): (m: nat)
    requires pos <= |src|
    ensures IsBest(src, pos, First(pos), m)
  {
    BestExists(src, pos, First(pos));
    var m: nat :| IsBest(src, pos, First(pos), m);
    m
  }

  ghost predicate AllSpaces(src: seq<byte>, q: int) {
    q + F <= |src| && Text(src, q, F) == Spaces()
  }

  /** The one case in which the encoder misses the longest match: F spaces are to be matched, F spaces
      in a row start in the window only before the source, and the oldest of those, whose node the others
      lost theirs to, has left the window. */
  ghost predicate Missed(src: seq<byte>, pos: nat) {
    && First(pos) > -F && AllSpaces(src, pos)
    && (exists q :: First(pos) <= q < 0 && AllSpaces(src, q))
    && (forall q :: 0 <= q < pos ==> !AllSpaces(src, q))
  }

  /** The length of the match that the encoder finds at pos. */
  ghost function Found(src: seq<byte>, pos: nat): (m: nat)
    requires pos <= |src|
    ensures m <= Lookahead(src, pos)
  {
    if Missed(src, pos) then F - 1 else Best(src, pos)
  }

  lemma MatchOfSpaces(src: seq<byte>, pos: nat, q: int)
    requires q < pos <= |src| && AllSpaces(src, pos)
    ensures MatchLen(src, pos, q) == F <==> AllSpaces(src, q)
  {
    FirstDifferenceOrders(Text(src, pos, F), Text(src, q, F));
  }

  /** The encoder finds the longest match exactly when it is not in that case, and then it is one short. */
  lemma FoundIsBestUnlessMissed(src: seq<byte>, pos: nat)
    requires pos <= |src|
    ensures Found(src, pos) == Best(src, pos) <==> !Missed(src, pos)
    ensures Missed(src, pos) ==> Best(src, pos) == F && Found(src, pos) == F - 1
  {
    if Missed(src, pos) {
      var q :| First(pos) <= q < 0 && AllSpaces(src, q);
      MatchOfSpaces(src, pos, q);
    }
  }

  /** A source on which it happens: a space, 4060 other bytes, and 18 spaces. */
  lemma MissedHappens()
    ensures exists src: seq<byte>, pos: nat :: pos <= |src| && Missed(src, pos) && Found(src, pos) < Best(src, pos)
  {
    var src: seq<byte> := [SPACE] + seq<byte>(4060, _ => 120) + Spaces();
    var pos: nat := 4061;
    assert Text(src, pos, F) == Spaces();
    assert AllSpaces(src, -17) by { assert Text(src, -17, F) == Spaces(); }
    forall q | 0 <= q < pos ensures !AllSpaces(src, q) {
      var i := if q == 0 then 1 else 0;
      assert Text(src, q, F)[i] == src[q + i] != Spaces()[i];
    }
    assert Missed(src, pos);
    FoundIsBestUnlessMissed(src, pos);
  }
}
