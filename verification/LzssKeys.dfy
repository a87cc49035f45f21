/** Constants of the LZSS coder and the order of the F-byte strings its search trees hold. */
module LzssKeys {
  import Bytes

  type byte = Bytes.byte

  const N: int := 4096          // size of the ring buffer
  const F: int := 18            // upper limit of a match
  const THRESHOLD: int := 2     // a match must be longer than this to be sent as a pair
  const NIL: int := N           // "no node"
  const ROOT: int := N + 1      // the tree of strings starting with byte c hangs off rchild[ROOT + c]
  const SPACE: byte := 32

  /** The text buffer: the ring followed by a copy of its first F-1 bytes. */
  ghost predicate IsText(t: seq<byte>) {
    |t| == N + F - 1
  }

  /** The string at position p of the text buffer. */
  ghost function Key(t: seq<byte>, p: int): (k: seq<byte>)
    requires IsText(t) && 0 <= p < N
    ensures |k| == F
  {
    t[p..p + F]
  }

  /** a and b agree on their first n bytes and no further. */
  ghost predicate IsLcp(a: seq<byte>, b: seq<byte>, n: nat) {
    n <= |a| && n <= |b| && a[..n] == b[..n] && (n < |a| && n < |b| ==> a[n] != b[n])
  }

  lemma {:induction false} LcpExists(a: seq<byte>, b: seq<byte>)
    ensures exists n: nat :: IsLcp(a, b, n)
  {
    if a == [] || b == [] || a[0] != b[0] {
      assert IsLcp(a, b, 0);
    } else {
      LcpExists(a[1..], b[1..]);
      var m: nat :| IsLcp(a[1..], b[1..], m);
      assert a[..m + 1] == [a[0]] + a[1..][..m] && b[..m + 1] == [b[0]] + b[1..][..m];
      assert IsLcp(a, b, m + 1);
    }
  }

  /** Length of the longest common prefix. */
  ghost function Lcp(a: seq<byte>, b: seq<byte>): (n: nat)
    ensures IsLcp(a, b, n)
  {
    LcpExists(a, b);
    var n: nat :| IsLcp(a, b, n);
    n
  }

  /** A common prefix followed by a difference, or by an end, is the longest common prefix. */
  lemma LcpIs(a: seq<byte>, b: seq<byte>, n: nat)
    requires IsLcp(a, b, n)
    ensures Lcp(a, b) == n
  {
    var m := Lcp(a, b);
    assert forall k :: 0 <= k < n ==> a[..n][k] == b[..n][k];
    assert forall k :: 0 <= k < m ==> a[..m][k] == b[..m][k];
  }

  lemma LcpSymmetric(a: seq<byte>, b: seq<byte>)
    ensures Lcp(a, b) == Lcp(b, a)
  {
    LcpIs(b, a, Lcp(a, b));
  }

  /** A string of bytes read as a big-endian base-256 numeral. */
  ghost function Rank(s: seq<byte>): nat {
    if s == [] then 0 else Rank(s[..|s| - 1]) * 256 + s[|s| - 1]
  }

  /** Among strings of one length the order of ranks is the lexicographic order. */
  lemma {:induction false} RankIsLexicographic(a: seq<byte>, b: seq<byte>, i: nat)
    requires |a| == |b| && i < |a| && a[..i] == b[..i] && a[i] < b[i]
    ensures Rank(a) < Rank(b)
  {
    var n := |a| - 1;
    if i == n {
      assert a[..n] == b[..n];
    } else {
      assert a[..n][..i] == a[..i] && b[..n][..i] == b[..i];
      RankIsLexicographic(a[..n], b[..n], i);
    }
  }

  /** The first difference decides the order. */
  lemma FirstDifferenceOrders(a: seq<byte>, b: seq<byte>)
    requires |a| == |b|
    ensures Rank(a) == Rank(b) <==> a == b
    ensures a == b <==> Lcp(a, b) == |a|
    ensures a != b ==> var n := Lcp(a, b); (Rank(a) < Rank(b) <==> a[n] < b[n])
  {
    var n := Lcp(a, b);
    if n < |a| {
      if a[n] < b[n] { RankIsLexicographic(a, b, n); } else { RankIsLexicographic(b, a, n); }
    } else {
      assert a == a[..n] && b == b[..n];
    }
    if a == b { LcpIs(a, b, |a|); }
  }

  /** A string between two others shares at least as much with the far one as they share. */
  lemma LcpSandwich(y: seq<byte>, p: seq<byte>, r: seq<byte>)
    requires |y| == |p| == |r|
    requires Rank(y) <= Rank(p) <= Rank(r) || Rank(y) >= Rank(p) >= Rank(r)
    ensures Lcp(y, r) <= Lcp(p, r)
  {
    var m := Lcp(p, r);
    var n := Lcp(y, r);
    if m < n {
      assert y[..m] == y[..n][..m] == r[..n][..m] == r[..m];
      assert y[m] == y[..n][m] == r[..n][m] == r[m];
      LcpIs(y, p, m);
      FirstDifferenceOrders(p, r);
      FirstDifferenceOrders(y, p);
      assert false;
    }
  }
}
