/** What the search trees find, in terms of the source text. */
module LzssSearch {
  import opened LzssKeys
  import opened LzssBuffer
  import opened LzssFormat
  import opened LzssEncodeState
  import opened LzssWindow

  lemma LcpTake(a: seq<byte>, b: seq<byte>, n: nat)
    requires |a| == |b| && n <= |a|
    ensures Lcp(a[..n], b[..n]) == Min(Lcp(a, b), n)
  {
    var m := Lcp(a, b);
    if m < n {
      assert a[..n][..m] == a[..m] && b[..n][..m] == b[..m];
      LcpIs(a[..n], b[..n], m);
    } else {
      assert a[..n] == a[..m][..n] == b[..m][..n] == b[..n];
      LcpIs(a[..n], b[..n], n);
    }
  }

  /** The buffer and the trees when position pos is about to be inserted. */
  ghost predicate Ready(ps: set<int>, t: seq<byte>, src: seq<byte>, pos: nat) {
    && pos < |src| && Holds(t, src, pos + Lookahead(src, pos))
    && Tracks(ps, t, First(pos), pos - 1)
  }

  /** A prefix of a key is the source's text. */
  lemma KeyIsText(t: seq<byte>, src: seq<byte>, read: nat, q: int, n: nat)
    requires Holds(t, src, read) && read - N <= q && -(N - F) <= q && n <= F && q + n <= read
    ensures Key(t, Slot(q))[..n] == Text(src, q, n)
  {
    forall i | 0 <= i < n ensures Key(t, Slot(q))[..n][i] == Text(src, q, n)[i] {
      KeyByte(t, src, read, q, i);
    }
  }

  /** How much the strings at pos and q share, the lookahead apart. */
  ghost function Shared(t: seq<byte>, pos: int, q: int): (n: nat)
    requires IsText(t)
    ensures n <= F
  {
    Lcp(Key(t, Slot(pos)), Key(t, Slot(q)))
  }

  lemma SharedIsMatch(ps: set<int>, t: seq<byte>, src: seq<byte>, pos: nat, q: int)
    requires Ready(ps, t, src, pos) && First(pos) <= q < pos
    ensures MatchLen(src, pos, q) == Min(Shared(t, pos, q), Lookahead(src, pos))
  {
    var n := Lookahead(src, pos);
    KeyIsText(t, src, pos + n, pos, n);
    KeyIsText(t, src, pos + n, q, n);
    LcpTake(Key(t, Slot(pos)), Key(t, Slot(q)), n);
  }

  lemma AllSpacesKey(ps: set<int>, t: seq<byte>, src: seq<byte>, pos: nat, q: int)
    requires Ready(ps, t, src, pos) && First(pos) <= q <= pos && q + F <= pos + Lookahead(src, pos)
    ensures AllSpaces(src, q) <==> Key(t, Slot(q)) == Spaces()
  {
    KeyIsText(t, src, pos + Lookahead(src, pos), q, F);
    assert Key(t, Slot(q))[..F] == Key(t, Slot(q));
  }

  /** A covered string shares no more with that at pos than the match found. */
  lemma CoveredIsFound(ps: set<int>, t: seq<byte>, src: seq<byte>, pos: nat, mp: int, ml: int, q: int)
    requires Ready(ps, t, src, pos) && LongestMatch(t, Slot(pos), ps, mp, ml)
    requires Covered(ps, t, q, pos - 1)
    ensures Shared(t, pos, q) <= ml
  {
  }

  /** A forgotten string of spaces has a neighbour in the trees that starts with F-1 spaces. */
  lemma {:induction false} NeighbourCovered(ps: set<int>, t: seq<byte>, src: seq<byte>, pos: nat, q: int)
    returns (y: int)
    requires Ready(ps, t, src, pos) && First(pos) > -F && First(pos) <= q && Forgettable(t, q)
    ensures q < y <= 0 && Covered(ps, t, y, pos - 1) && Key(t, Slot(y))[..F - 1] == Spaces()[..F - 1]
    decreases -q
  {
    y := q + 1;
    var k, k' := Key(t, Slot(q)), Key(t, Slot(y));
    forall i | 0 <= i < F - 1 ensures k'[i] == SPACE {
      KeyByte(t, src, pos + Lookahead(src, pos), q, i + 1);
      KeyByte(t, src, pos + Lookahead(src, pos), y, i);
    }
    if !Covered(ps, t, y, pos - 1) {
      y := NeighbourCovered(ps, t, src, pos, y);
    }
  }

  lemma SpacesShare(a: seq<byte>, y: seq<byte>)
    requires |a| == |y| == F && y[..F - 1] == Spaces()[..F - 1]
    ensures Lcp(a, y) >= Min(F - 1, Lcp(a, Spaces()))
  {
    var m, n := Min(F - 1, Lcp(a, Spaces())), Lcp(a, y);
    assert forall k :: 0 <= k < F - 1 ==> y[k] == y[..F - 1][k] == Spaces()[..F - 1][k] == Spaces()[k];
    assert forall k :: 0 <= k < m ==> a[k] == a[..Lcp(a, Spaces())][k] == Spaces()[k];
  }

  /** The match found is the longest, except where spaces have been forgotten. */
  lemma NothingLonger(ps: set<int>, t: seq<byte>, src: seq<byte>, pos: nat, mp: int, ml: int, q: int)
    requires Ready(ps, t, src, pos) && LongestMatch(t, Slot(pos), ps, mp, ml)
    requires First(pos) <= q < pos
    ensures Min(F - 1, Shared(t, pos, q)) <= ml
    ensures Shared(t, pos, q) > ml ==> First(pos) > -F && Forgettable(t, q) && Key(t, Slot(pos)) == Spaces()
  {
    if Covered(ps, t, q, pos - 1) {
      CoveredIsFound(ps, t, src, pos, mp, ml, q);
    } else {
      assert Forgettable(t, q);
      if First(pos) == -F {
        AllSpacesKey(ps, t, src, pos, -F);
        assert Text(src, -F, F) == Spaces();
        assert Covered(ps, t, -F, pos - 1);
        CoveredIsFound(ps, t, src, pos, mp, ml, -F);
      } else {
        var y := NeighbourCovered(ps, t, src, pos, q);
        CoveredIsFound(ps, t, src, pos, mp, ml, y);
        SpacesShare(Key(t, Slot(pos)), Key(t, Slot(y)));
        FirstDifferenceOrders(Key(t, Slot(pos)), Spaces());
      }
    }
  }

  /** When spaces have been forgotten, the trees hold no string of spaces. */
  lemma NoSpacesInTrees(ps: set<int>, t: seq<byte>, src: seq<byte>, pos: nat, q: int)
    requires Ready(ps, t, src, pos) && Missed(src, pos) && First(pos) <= q < pos && Slot(q) in ps
    ensures Key(t, Slot(q)) != Spaces()
  {
    if q < 0 {
      assert !Forgettable(t, q);
    } else {
      AllSpacesKey(ps, t, src, pos, q);
    }
  }

  lemma MissedIsMissed(ps: set<int>, t: seq<byte>, src: seq<byte>, pos: nat, mp: int, ml: int)
    requires Ready(ps, t, src, pos) && LongestMatch(t, Slot(pos), ps, mp, ml) && Missed(src, pos)
    ensures ml == F - 1
  {
    AllSpacesKey(ps, t, src, pos, pos);
    var q :| First(pos) <= q < 0 && AllSpaces(src, q);
    AllSpacesKey(ps, t, src, pos, q);
    NothingLonger(ps, t, src, pos, mp, ml, q);
    FirstDifferenceOrders(Key(t, Slot(pos)), Key(t, Slot(q)));
    if mp in ps {
      var q' :| First(pos) <= q' <= pos - 1 && Slot(q') == mp;
      NoSpacesInTrees(ps, t, src, pos, q');
      FirstDifferenceOrders(Key(t, Slot(pos)), Key(t, mp));
    }
  }

  /** Spaces are found when F of them in a row have been read before. */
  lemma SpacesFound(ps: set<int>, t: seq<byte>, src: seq<byte>, pos: nat, mp: int, ml: int, q: int)
    requires Ready(ps, t, src, pos) && LongestMatch(t, Slot(pos), ps, mp, ml)
    requires AllSpaces(src, pos) && 0 <= q < pos && First(pos) <= q && AllSpaces(src, q)
    ensures ml == F
  {
    AllSpacesKey(ps, t, src, pos, pos);
    AllSpacesKey(ps, t, src, pos, q);
    FirstDifferenceOrders(Key(t, Slot(pos)), Key(t, Slot(q)));
    assert Covered(ps, t, q, pos - 1);
    CoveredIsFound(ps, t, src, pos, mp, ml, q);
  }

  lemma OtherwiseFound(ps: set<int>, t: seq<byte>, src: seq<byte>, pos: nat, mp: int, ml: int)
    requires Ready(ps, t, src, pos) && LongestMatch(t, Slot(pos), ps, mp, ml) && !Missed(src, pos)
    ensures Best(src, pos) <= Min(ml, Lookahead(src, pos))
  {
    var n := Lookahead(src, pos);
    var q :| First(pos) <= q < pos && MatchLen(src, pos, q) == Best(src, pos);
    SharedIsMatch(ps, t, src, pos, q);
    NothingLonger(ps, t, src, pos, mp, ml, q);
    if Shared(t, pos, q) > ml && n == F {
      AllSpacesKey(ps, t, src, pos, pos);
      AllSpacesKey(ps, t, src, pos, q);
      var q' :| 0 <= q' < pos && AllSpaces(src, q');
      SpacesFound(ps, t, src, pos, mp, ml, q');
    }
  }

  /** The match found, cut to the lookahead, is the one the source determines, and its position is
      that of a text in the window with which the source matches that far. */
  lemma SearchFinds(ps: set<int>, t: seq<byte>, src: seq<byte>, pos: nat, mp: int, ml: int)
    requires Ready(ps, t, src, pos) && LongestMatch(t, Slot(pos), ps, mp, ml)
    ensures Min(ml, Lookahead(src, pos)) == Found(src, pos)
    ensures Min(ml, Lookahead(src, pos)) == Best(src, pos) <==> !Missed(src, pos)
    ensures ml > 0 ==> exists q :: First(pos) <= q < pos && Slot(q) == mp && MatchLen(src, pos, q) == Found(src, pos)
  {
    FoundIsBestUnlessMissed(src, pos);
    var n := Lookahead(src, pos);
    if ml > 0 {
      var q :| First(pos) <= q <= pos - 1 && Slot(q) == mp;
      SharedIsMatch(ps, t, src, pos, q);
      assert MatchLen(src, pos, q) == Min(ml, n);
    }
    if Missed(src, pos) {
      MissedIsMissed(ps, t, src, pos, mp, ml);
    } else {
      OtherwiseFound(ps, t, src, pos, mp, ml);
    }
  }
}
