/** The encoder state: text buffer, search trees in three link arrays, and the last match found. */
module LzssEncodeState {
  import opened LzssKeys
  import opened LzssForest

  /** The order of the strings of a text buffer. */
  ghost function OrderOf(t: seq<byte>): (o: Order)
    requires IsText(t)
    ensures Ranked(o)
    ensures forall x :: 0 <= x < N ==> o.rank[x] == Rank(Key(t, x)) && o.head[x] == t[x]
  {
    Order(seq(N, x requires 0 <= x < N => Rank(Key(t, x))), seq(N, x requires 0 <= x < N => t[x] as int))
  }

  /** Among the strings at ps none shares more than `length` bytes with the one at r, and the one at
      `position` shares that many. */
  ghost predicate LongestMatch(t: seq<byte>, r: int, ps: set<int>, position: int, length: int)
    requires IsText(t) && 0 <= r < N
  {
    && 0 <= length <= F
    && (forall p :: p in ps ==> 0 <= p < N && Lcp(Key(t, r), Key(t, p)) <= length)
    && (length > 0 ==> position in ps && Lcp(Key(t, r), Key(t, position)) == length)
  }

  lemma MatchIsThere(t: seq<byte>, r: int, ps: set<int>, position: int, length: int)
    requires IsText(t) && 0 <= r < N && LongestMatch(t, r, ps, position, length)
    ensures length > 0 ==> position in ps
  {
  }

  lemma MatchIs(t: seq<byte>, r: int, ps: set<int>, position: int, length: int)
    requires IsText(t) && 0 <= r < N && 0 <= length <= F
    requires forall p :: p in ps ==> 0 <= p < N && Lcp(Key(t, r), Key(t, p)) <= length
    requires length > 0 ==> position in ps && Lcp(Key(t, r), Key(t, position)) == length
    ensures LongestMatch(t, r, ps, position, length)
  {
  }

  lemma FullMatch(t: seq<byte>, r: int, k: Links, p: int)
    requires IsText(t) && 0 <= r < N && Sized(k) && p in Nodes(k) && Lcp(Key(t, r), Key(t, p)) >= F
    ensures LongestMatch(t, r, Nodes(k), p, F) && Lcp(Key(t, r), Key(t, p)) == F
  {
  }

  lemma ForestSizes(k: Links, sub: seq<set<int>>, o: Order)
    requires Forest(k, sub, o)
    ensures Sized(k) && |sub| == N && Ranked(o)
  {
  }

  /** No string left behind by a descent for r that has compared itself with p, a node, shares more
      than m bytes with r. */
  ghost predicate Passed(k: Links, sub: seq<set<int>>, t: seq<byte>, p: int, r: int, m: int)
    requires Sized(k) && |sub| == N && IsText(t) && 0 <= r < N && 0 <= p < N
  {
    forall x {:trigger x in sub[p]} :: Node(k, x) && t[x] == t[r] && (x !in sub[p] || x == p) ==>
      Lcp(Key(t, r), Key(t, x)) <= m
  }

  /** The side of p not taken holds nothing closer to r than p itself, so only the child matters. */
  lemma PassedStep(k: Links, sub: seq<set<int>>, t: seq<byte>, p: int, right: bool, r: int, m: int, m': int)
    requires IsText(t) && 0 <= r < N
    requires Forest(k, sub, OrderOf(t)) && OnPath(k, sub, OrderOf(t), p, r)
    requires if right then k.rchild[p] != NIL && GoesRight(OrderOf(t), p, r)
             else p < N && k.lchild[p] != NIL && OrderOf(t).rank[r] < OrderOf(t).rank[p]
    requires p < N ==> Passed(k, sub, t, p, r, m)
    requires m <= m'
    requires var c := if right then k.rchild[p] else k.lchild[p]; 0 <= c < N && Lcp(Key(t, r), Key(t, c)) <= m'
    ensures Passed(k, sub, t, if right then k.rchild[p] else k.lchild[p], r, m')
  {
    var o := OrderOf(t);
    var c := if right then k.rchild[p] else k.lchild[p];
    if p < N { assert NodeAt(k, sub, o, p); } else { assert RootAt(k, sub, o, o.head[r]); }
    forall x | Node(k, x) && t[x] == t[r] && (x !in sub[c] || x == c) ensures Lcp(Key(t, r), Key(t, x)) <= m' {
      if p < N && x in sub[p] && x != c && x != p {
        LcpSandwich(Key(t, x), Key(t, p), Key(t, r));
        LcpSymmetric(Key(t, x), Key(t, r));
        LcpSymmetric(Key(t, p), Key(t, r));
        assert p in sub[p];
      }
    }
  }

  /** A descent for r that ends under p has passed every string. */
  lemma PassedAll(k: Links, sub: seq<set<int>>, t: seq<byte>, p: int, right: bool, r: int, m: nat)
    requires IsText(t) && 0 <= r < N
    requires Forest(k, sub, OrderOf(t)) && OnPath(k, sub, OrderOf(t), p, r)
    requires if right then k.rchild[p] == NIL && GoesRight(OrderOf(t), p, r)
             else p < N && k.lchild[p] == NIL && OrderOf(t).rank[r] < OrderOf(t).rank[p]
    requires p < N ==> Passed(k, sub, t, p, r, m)
    ensures forall x :: x in Nodes(k) ==> 0 <= x < N && Lcp(Key(t, r), Key(t, x)) <= m
  {
    hide Rank;
    var o := OrderOf(t);
    if p < N { assert NodeAt(k, sub, o, p); } else { assert RootAt(k, sub, o, o.head[r]); }
    forall x | x in Nodes(k) ensures Lcp(Key(t, r), Key(t, x)) <= m {
      if t[x] != t[r] {
        assert Key(t, r)[0] != Key(t, x)[0];
      } else if p < N && x in sub[p] && x != p {
        LcpSandwich(Key(t, x), Key(t, p), Key(t, r));
        LcpSymmetric(Key(t, x), Key(t, r));
        LcpSymmetric(Key(t, p), Key(t, r));
        assert p in sub[p];
      }
    }
  }

  class EncodeState {
    const lchild: array<int>
    const rchild: array<int>
    const parent: array<int>
    const textBuf: array<byte>
    var matchPosition: int
    var matchLength: int
    ghost var sub: seq<set<int>>   // the nodes of each subtree

    ghost predicate Sizes()
    {
      && lchild.Length == N + 1 && rchild.Length == N + 257 && parent.Length == N + 1
      && textBuf.Length == N + F - 1
      && lchild != rchild && lchild != parent && rchild != parent
    }

    ghost function LinkValues(): (k: Links)
      reads lchild, rchild, parent
    {
      Links(lchild[..], rchild[..], parent[..])
    }

    ghost predicate Valid()
      reads this, lchild, rchild, parent, textBuf
    {
      Sizes() && Forest(LinkValues(), sub, OrderOf(textBuf[..]))
    }

    /** The positions whose strings are in the trees. */
    ghost function Positions(): (s: set<int>)
      requires Sizes()
      reads lchild, rchild, parent
    {
      Nodes(LinkValues())
    }

    constructor ()
      ensures Valid() && Positions() == {}
      ensures fresh(lchild) && fresh(rchild) && fresh(parent) && fresh(textBuf)
      ensures textBuf[..] == seq(N + F - 1, i => if i < N - F then SPACE else 0)
      ensures matchPosition == 0 && matchLength == 0
    {
      lchild := new int[N + 1](_ => 0);
      rchild := new int[N + 257](_ => 0);
      parent := new int[N + 1](_ => 0);
      textBuf := new byte[N + F - 1](_ => 0);
      matchPosition, matchLength := 0, 0;
      sub := seq(N, _ => {});
      new;
      for i := 0 to N - F
        invariant forall j :: 0 <= j < N + F - 1 ==> textBuf[j] == if j < i then SPACE else 0
        invariant matchPosition == 0 && matchLength == 0 && sub == seq(N, _ => {})
      {
        textBuf[i] := SPACE;
      }
      for i := N + 1 to N + 257
        invariant forall j :: N + 1 <= j < i ==> rchild[j] == NIL
        invariant forall j :: 0 <= j < N + F - 1 ==> textBuf[j] == if j < N - F then SPACE else 0
        invariant matchPosition == 0 && matchLength == 0 && sub == seq(N, _ => {})
      {
        rchild[i] := NIL;
      }
      for i := 0 to N
        invariant forall j :: 0 <= j < i ==> parent[j] == NIL
        invariant forall j :: N + 1 <= j < N + 257 ==> rchild[j] == NIL
        invariant forall j :: 0 <= j < N + F - 1 ==> textBuf[j] == if j < N - F then SPACE else 0
        invariant matchPosition == 0 && matchLength == 0 && sub == seq(N, _ => {})
      {
        parent[i] := NIL;
      }
      EmptyForest(LinkValues(), sub, OrderOf(textBuf[..]));
    }

    /** Compares the string at r with that at p, which has the same first byte: the number of equal
        bytes and the difference at the first unequal one, as the loop in insert_node leaves them. */
    method Compare(r: int, p: int) returns (i: int, cmp: int)
      requires Sizes() && 0 <= r < N && 0 <= p < N && textBuf[r] == textBuf[p]
      ensures i == Lcp(Key(textBuf[..], r), Key(textBuf[..], p)) && 1 <= i
      ensures i < F ==> cmp != 0
      ensures i < F ==> (cmp > 0 <==> Rank(Key(textBuf[..], r)) > Rank(Key(textBuf[..], p)))
      ensures i < F ==> (cmp < 0 <==> Rank(Key(textBuf[..], r)) < Rank(Key(textBuf[..], p)))
      ensures i == F <==> Key(textBuf[..], r) == Key(textBuf[..], p)
    {
      ghost var a, b := Key(textBuf[..], r), Key(textBuf[..], p);
      cmp := 0;
      i := 1;
      while i < F
        invariant 1 <= i <= F && a[..i] == b[..i] && cmp == 0
      {
        cmp := textBuf[r + i] as int - textBuf[p + i] as int;
        if cmp != 0 { break; }
        i := i + 1;
      }
      LcpIs(a, b, i);
      FirstDifferenceOrders(a, b);
    }
  
    /** Hangs r under the free right, or left, link of p. */
    method LinkLeaf(p: int, right: bool, r: int)
      requires Valid() && 0 <= r < N && r !in Positions() && lchild[r] == NIL && rchild[r] == NIL
      requires OnPath(LinkValues(), sub, OrderOf(textBuf[..]), p, r) && 0 <= p < ROOT + 256
      requires if right then rchild[p] == NIL && GoesRight(OrderOf(textBuf[..]), p, r)
               else p < N && lchild[p] == NIL && OrderOf(textBuf[..]).rank[r] < OrderOf(textBuf[..]).rank[p]
      modifies lchild, rchild, parent, this`sub
      ensures Valid() && Positions() == old(Positions()) + {r}
    {
      ghost var k := LinkValues();
      LeafKeepsForest(k, sub, OrderOf(textBuf[..]), p, right, r);
      if right {
        rchild[p] := r;
      } else {
        lchild[p] := r;
      }
      parent[r] := p;
      sub := LeafSub(sub, p, r);
      assert LinkValues() == LeafLinks(k, p, right, r);
    }

    /** The assignments that put r in the place of p. */
    method RelinkEqual(p: int, r: int)
      requires Sizes() && ReplacePair(LinkValues(), p, r)
      modifies lchild, rchild, parent
      ensures LinkValues() == ReplacedLinks(old(LinkValues()), p, r)
    {
      parent[r] := parent[p];
      lchild[r] := lchild[p];
      rchild[r] := rchild[p];
      parent[lchild[p]] := r;
      parent[rchild[p]] := r;
      if rchild[parent[p]] == p {
        rchild[parent[p]] := r;
      } else {
        lchild[parent[p]] := r;
      }
      parent[p] := NIL;
    }

    /** Puts r in the place of p, whose string equals r's. */
    method ReplaceNode(p: int, r: int)
      requires Valid() && 0 <= r < N && r !in Positions() && p in Positions()
      requires Key(textBuf[..], r) == Key(textBuf[..], p)
      modifies lchild, rchild, parent, this`sub
      ensures Valid() && Positions() == old(Positions()) - {p} + {r}
    {
      ghost var k, o := LinkValues(), OrderOf(textBuf[..]);
      assert Key(textBuf[..], r)[0] == Key(textBuf[..], p)[0];
      EqualFits(k, sub, o, p, r);
      NodeBounds(k, sub, o, p);
      ReplacePairs(k, sub, o, p, r);
      ReplacedRenames(k, sub, o, p, r);
      RenameKeepsForest(k, sub, o, ReplacedLinks(k, p, r), p, r);
      RelinkEqual(p, r);
      sub := ReplacedSub(sub, p, r);
    }

    /** The search of insert_node, from the root of r's first byte: either it meets an equal string at p,
        or it ends at p, whose right (or left) link is free.  It keeps the best match seen. */
    method Descend(r: int) returns (p: int, right: bool, equal: bool)
      requires Valid() && 0 <= r < N && r !in Positions()
      modifies this`matchPosition, this`matchLength
      ensures LongestMatch(textBuf[..], r, Positions(), matchPosition, matchLength)
      ensures equal <==> matchLength == F
      ensures equal ==> p == matchPosition && Key(textBuf[..], r) == Key(textBuf[..], p)
      ensures !equal ==> OnPath(LinkValues(), sub, OrderOf(textBuf[..]), p, r) && 0 <= p < ROOT + 256
      ensures !equal ==> if right then rchild[p] == NIL && GoesRight(OrderOf(textBuf[..]), p, r)
        else p < N && lchild[p] == NIL && OrderOf(textBuf[..]).rank[r] < OrderOf(textBuf[..]).rank[p]
    {
      hide Forest, OrderOf, Rank, Passed, LongestMatch, Lcp, IsLcp, Key;
      ghost var t, k := textBuf[..], LinkValues();
      ghost var o := OrderOf(t);
      ForestSizes(k, sub, o);
      var cmp := 1;
      p := N + 1 + textBuf[r] as int;
      matchLength := 0;
      while true
        invariant OnPath(k, sub, o, p, r) && 0 <= p < ROOT + 256 && p != NIL
        invariant p >= N ==> cmp >= 0 && matchLength == 0
        invariant p < N ==> cmp != 0 && (cmp > 0 <==> o.rank[r] > o.rank[p]) && (cmp < 0 <==> o.rank[r] < o.rank[p])
        invariant 0 <= matchLength < F
        invariant matchLength > 0 ==> Node(k, matchPosition) && Lcp(Key(t, r), Key(t, matchPosition)) == matchLength
        invariant p < N ==> Passed(k, sub, t, p, r, matchLength)
        decreases if p < N then sub[p] else Nodes(k) + {NIL}
      {
        ghost var q := p;
        right := cmp >= 0;
        if cmp >= 0 {
          if rchild[p] != NIL {
            p := rchild[p];
          } else {
            PassedAll(k, sub, t, p, true, r, matchLength);
            MatchIs(t, r, Nodes(k), matchPosition, matchLength);
            return p, true, false;
          }
        } else {
          if lchild[p] != NIL {
            p := lchild[p];
          } else {
            PassedAll(k, sub, t, p, false, r, matchLength);
            MatchIs(t, r, Nodes(k), matchPosition, matchLength);
            return p, false, false;
          }
        }
        DescendOnPath(k, sub, o, q, right, r);
        DescendShrinks(k, sub, o, q, right, r);
        var i;
        i, cmp := Compare(r, p);
        PassedStep(k, sub, t, q, right, r, matchLength, if i > matchLength then i else matchLength);
        if i > matchLength {
          matchPosition := p;
          matchLength := i;
          if i >= F {
            FullMatch(t, r, k, p);
            return p, right, true;
          }
        }
      }
    }

    /** Links position r into the tree of its first byte and finds the longest match among the strings
        already there.  A string equal to the new one loses its node to it. */
    method InsertNode(r: int)
      requires Valid() && 0 <= r < N && r !in Positions()
      modifies lchild, rchild, parent, this`matchPosition, this`matchLength, this`sub
      ensures Valid()
      ensures LongestMatch(textBuf[..], r, old(Positions()), matchPosition, matchLength)
      ensures Positions() == old(Positions()) + {r} - (if matchLength == F then {matchPosition} else {})
    {
      hide Forest, OrderOf, LongestMatch, Rank;
      ClearKeepsForest(LinkValues(), sub, OrderOf(textBuf[..]), r);
      rchild[r] := NIL;
      lchild[r] := NIL;
      assert LinkValues() == old(LinkValues()).(lchild := old(lchild[..])[r := NIL],
        rchild := old(rchild[..])[r := NIL]);
      var p, right, equal := Descend(r);
      if equal {
        MatchIsThere(textBuf[..], r, Positions(), matchPosition, matchLength);
        ReplaceNode(p, r);
      } else {
        LinkLeaf(p, right, r);
      }
    }
  
    /** The rightmost node below q, the left child of p. */
    method Rightmost(p: int, start: int) returns (q: int)
      requires Valid() && p in Positions() && start == lchild[p] != NIL
      ensures q in Positions() && Spine(LinkValues(), sub, OrderOf(textBuf[..]), p, q)
      ensures rchild[q] == NIL && (q == start <==> rchild[start] == NIL)
    {
      ghost var k, o := LinkValues(), OrderOf(textBuf[..]);
      SpineStart(k, sub, o, p);
      q := start;
      while rchild[q] != NIL
        invariant q in Positions() && Spine(k, sub, o, p, q)
        invariant q == start || (sub[q] < sub[start] && rchild[start] != NIL)
        decreases sub[q]
      {
        SpineStep(k, sub, o, p, q);
        q := rchild[q];
      }
    }

    /** Node p, with at most the one child c, leaves its tree and c hangs where p did. */
    method Splice(p: int, c: int)
      requires Valid() && Bounded(LinkValues(), p) && OnlyChild(LinkValues(), p, c)
      modifies lchild, rchild, parent, this`sub
      ensures Valid() && Positions() == old(Positions()) - {p}
    {
      ghost var k, o := LinkValues(), OrderOf(textBuf[..]);
      SplicedLinksSplice(k, sub, o, p, c);
      SpliceKeepsForest(k, sub, o, SplicedLinks(k, p, c), p, c);
      assert NodeAt(k, sub, o, p);
      Acyclic(k, sub, o, p);
      parent[c] := parent[p];
      if rchild[parent[p]] == p {
        rchild[parent[p]] := c;
      } else {
        lchild[parent[p]] := c;
      }
      parent[p] := NIL;
      sub := SplicedSub(sub, p);
      assert LinkValues() == SplicedLinks(k, p, c);
    }

    /** The assignments that cut q out of its place below p's left child. */
    method DetachPredecessor(p: int, q: int)
      requires Sizes() && Bounded(LinkValues(), p) && Bounded(LinkValues(), q) && DeletePair(LinkValues(), p, q)
      modifies lchild, rchild, parent
      ensures LinkValues() == DetachedLinks(old(LinkValues()), p, q)
    {
      if q != lchild[p] {
        rchild[parent[q]] := lchild[q];
        parent[lchild[q]] := parent[q];
        lchild[q] := lchild[p];
        parent[lchild[p]] := q;
      }
    }

    /** The assignments that put q, the rightmost node left of p, in the place of p. */
    method RelinkPredecessor(p: int, q: int)
      requires Sizes() && Bounded(LinkValues(), p) && Bounded(LinkValues(), q) && DeletePair(LinkValues(), p, q)
      modifies lchild, rchild, parent
      ensures LinkValues() == DeletedLinks(old(LinkValues()), p, q)
    {
      ghost var k := LinkValues();
      DetachPredecessor(p, q);
      ghost var k1 := LinkValues();
      assert k1.rchild[p] == k.rchild[p] && k1.parent[p] == k.parent[p];
      rchild[q] := rchild[p];
      parent[rchild[p]] := q;
      parent[q] := parent[p];
      ghost var k2 := LinkValues();
      assert k2 == k1.(rchild := k1.rchild[q := k.rchild[p]], parent := k1.parent[k.rchild[p] := q][q := k.parent[p]]);
      if rchild[parent[p]] == p {
        rchild[parent[p]] := q;
      } else {
        lchild[parent[p]] := q;
      }
      parent[p] := NIL;
    }

    /** Node p, with two children, leaves its tree and q, the rightmost node on its left, takes its place. */
    method PromotePredecessor(p: int, q: int)
      requires Valid() && p in Positions() && lchild[p] != NIL && rchild[p] != NIL && q in Positions()
      requires Spine(LinkValues(), sub, OrderOf(textBuf[..]), p, q) && rchild[q] == NIL
      modifies lchild, rchild, parent, this`sub
      ensures Valid() && Positions() == old(Positions()) - {p}
    {
      ghost var k, o := LinkValues(), OrderOf(textBuf[..]);
      NodeBounds(k, sub, o, p);
      NodeBounds(k, sub, o, q);
      PromoteKeepsForest(k, sub, o, p, q);
      RelinkPredecessor(p, q);
      sub := ReplacedSub(SplicedSub(sub, q), p, q);
    }

    /** Unlinks position p, if it is linked. */
    method DeleteNode(p: int)
      requires Valid() && 0 <= p < N
      modifies lchild, rchild, parent, this`sub
      ensures Valid() && Positions() == old(Positions()) - {p}
    {
      if parent[p] == NIL { return; }
      NodeBounds(LinkValues(), sub, OrderOf(textBuf[..]), p);
      if rchild[p] == NIL {
        Splice(p, lchild[p]);
      } else if lchild[p] == NIL {
        Splice(p, rchild[p]);
      } else {
        var q := Rightmost(p, lchild[p]);
        PromotePredecessor(p, q);
      }
    }
  }
}
